/**
 * The access gate of app.py and app_ND.py: a session flag (`zalogowany`) that
 * starts false, becomes true only when "Zaloguj" is pressed with exactly the
 * password, and becomes false again on logout. While it is false the login page
 * is the whole run (`st.stop()`), so nothing else can happen.
 */
module Gate {

  const PASSWORD: string := "demo2025"

  /** What one page run does to the gate: show the login page, or press "Wyloguj". */
  datatype Event = Login(haslo: string, pressed: bool) | Logout

  /** A login that opens the gate: the button pressed with exactly the password. */
  predicate Unlocks(e: Event)
  {
    e.Login? && e.pressed && e.haslo == PASSWORD
  }

  /**
   * The flag after one event. The login page is shown only to a locked session,
   * so a login event leaves an unlocked session as it is.
   */
  function Step(unlocked: bool, e: Event): (u: bool)
  {
    match e
    case Login(haslo, pressed) => unlocked || (pressed && haslo == PASSWORD)
    case Logout => false
  }

  /** The flag after a sequence of events, starting from `unlocked`. */
  function After(unlocked: bool, es: seq<Event>): (u: bool)
  {
    if es == [] then unlocked else Step(After(unlocked, es[..|es| - 1]), es[|es| - 1])
  }

  /**
   * A fresh session is unlocked after a history of runs exactly when some run
   * pressed "Zaloguj" with the password and no logout came after it.
   */
  lemma {:induction false} UnlockedIff(es: seq<Event>)
    ensures After(false, es) <==>
      exists i :: 0 <= i < |es| && Unlocks(es[i]) && forall j :: i < j < |es| ==> !es[j].Logout?
  {
    if es != [] {
      var n := |es| - 1;
      var init := es[..n];
      UnlockedIff(init);
      forall i | 0 <= i < n ensures init[i] == es[i] { }
      if es[n].Logout? {
        forall i | 0 <= i < |es| && Unlocks(es[i])
          ensures exists j :: i < j < |es| && es[j].Logout?
        {
          assert i < n && es[n].Logout?;
        }
      } else if Unlocks(es[n]) {
        assert Unlocks(es[n]) && |es| == n + 1;
      } else if After(false, init) {
        var i :| 0 <= i < n && Unlocks(init[i]) && forall j :: i < j < n ==> !init[j].Logout?;
        assert Unlocks(es[i]) && forall j :: i < j < |es| ==> !es[j].Logout?;
      } else {
        forall i | 0 <= i < |es| && Unlocks(es[i])
          ensures exists j :: i < j < |es| && es[j].Logout?
        {
          assert i < n;
          var j :| i < j < n && init[j].Logout?;
          assert es[j].Logout?;
        }
      }
    }
  }

  /** A wrong password never opens the gate, pressed or not. */
  lemma {:induction false} WrongPasswordKeepsLocked(es: seq<Event>)
    requires forall i :: 0 <= i < |es| ==> es[i].Login? ==> es[i].haslo != PASSWORD
    ensures !After(false, es)
  {
    UnlockedIff(es);
  }

  /** The session of one browser: `st.session_state.zalogowany`. */
  class Session {
    var zalogowany: bool

    /** `if "zalogowany" not in st.session_state: st.session_state.zalogowany = False` */
    constructor ()
      ensures !zalogowany
    {
      zalogowany := false;
    }

    /** A run of the login page: the flag is set only by a press with the exact password. */
    method ShowLoginPage(haslo: string, pressed: bool)
      requires !zalogowany
      modifies this
      ensures zalogowany == Step(old(zalogowany), Login(haslo, pressed))
      ensures zalogowany <==> Unlocks(Login(haslo, pressed))
    {
      if pressed && haslo == PASSWORD {
        zalogowany := true;
      }
    }

    /** "Wyloguj": `st.session_state.zalogowany = False`. */
    method PressLogout()
      modifies this
      ensures zalogowany == Step(old(zalogowany), Logout) && !zalogowany
    {
      zalogowany := false;
    }
  }
}
