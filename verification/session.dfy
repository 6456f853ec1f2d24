/**
 * `st.session_state`, the per-browser-session store every page consults,
 * and the session handling of the home page (app.py): the `logged_in`
 * default and the Logout action.
 */
module SessionGate {
  import opened Wrappers
  import Chat

  /** The keys the portal stores in the session. */
  datatype Key = LoggedIn | Username | Role | Messages

  /** The Python values stored under those keys. */
  datatype Value = Flag(b: bool) | Str(s: string) | NoneValue | History(messages: seq<Chat.Message>)

  type State = map<Key, Value>

  /** Python truthiness of a stored value. */
  predicate Truthy(v: Value)
  {
    match v
    case Flag(b) => b
    case Str(s) => s != []
    case NoneValue => false
    case History(m) => m != []
  }

  /** The guard at the top of each protected page: `'logged_in' in state and state.logged_in`. */
  predicate IsLoggedIn(st: State)
  {
    LoggedIn in st && Truthy(st[LoggedIn])
  }

  /** The value stored for a role looked up with `get_user_role`. */
  function RoleValue(role: Option<string>): Value
  {
    match role
    case Some(r) => Str(r)
    case None => NoneValue
  }

  /** `if 'logged_in' not in st.session_state: st.session_state.logged_in = False`. */
  function WithLoginFlag(st: State): (after: State)
    ensures after.Keys == st.Keys + {LoggedIn}
    ensures forall k :: k in st ==> after[k] == st[k]
    ensures LoggedIn !in st ==> after[LoggedIn] == Flag(false)
  {
    if LoggedIn in st then st else st[LoggedIn := Flag(false)]
  }

  /** Setting the default never logs anyone in or out, and a second run changes nothing more. */
  lemma LoginFlagKeepsGate(st: State)
    ensures IsLoggedIn(WithLoginFlag(st)) == IsLoggedIn(st)
    ensures WithLoginFlag(WithLoginFlag(st)) == WithLoginFlag(st)
    ensures WithLoginFlag(map[]) == map[LoggedIn := Flag(false)] && !IsLoggedIn(map[LoggedIn := Flag(false)])
  {
  }

  /** The session after a successful login: the three fields set, everything else kept. */
  function LoggedInAs(st: State, username: string, role: Value): (after: State)
    ensures IsLoggedIn(after)
    ensures after.Keys == st.Keys + {LoggedIn, Username, Role}
    ensures after[Username] == Str(username) && after[Role] == role
    ensures Messages in st ==> Messages in after && after[Messages] == st[Messages]
  {
    st[LoggedIn := Flag(true)][Username := Str(username)][Role := role]
  }

  /** The chat history, when present, is a list of messages shaped as a conversation. */
  predicate HistoryOk(st: State)
  {
    Messages in st ==> st[Messages].History? && Chat.Conversation(st[Messages].messages)
  }

  /** One browser session's `st.session_state`. */
  class Session {
    var state: State

    /** A new browser session starts with no keys. */
    constructor ()
      ensures state == map[]
    {
      state := map[];
    }

    predicate Valid()
      reads this
    {
      HistoryOk(state)
    }

    /** app.py: `logged_in` is set to False only when the key is absent. */
    method InitLoginFlag()
      modifies this
      ensures state == WithLoginFlag(old(state))
    {
      if LoggedIn !in state {
        state := state[LoggedIn := Flag(false)];
      }
    }

    /** app.py: `for key in list(st.session_state.keys()): del st.session_state[key]`. */
    method Logout()
      modifies this
      ensures state == map[]
    {
      var keys := state.Keys;
      while keys != {}
        invariant state.Keys == keys
        decreases keys
      {
        var key :| key in keys;
        state := map k | k in state && k != key :: state[k];
        keys := keys - {key};
      }
      assert state.Keys == {};
    }
  }

  /** What the session part of the home page shows. */
  datatype HomeScreen = LoginPrompt | Welcome | LoggedOut

  /**
   * The session part of app.py `main`: default the flag, then offer the
   * login page when not logged in, or greet and offer Logout when logged in.
   */
  method Home(s: Session, logoutClicked: bool) returns (screen: HomeScreen)
    modifies s
    ensures screen == LoginPrompt <==> !IsLoggedIn(old(s.state))
    ensures screen == LoginPrompt ==> s.state == WithLoginFlag(old(s.state))
    ensures screen == Welcome <==> IsLoggedIn(old(s.state)) && !logoutClicked
    ensures screen == Welcome ==> s.state == old(s.state)
    ensures screen == LoggedOut ==> s.state == map[]
  {
    s.InitLoginFlag();
    LoginFlagKeepsGate(old(s.state));
    if !Truthy(s.state[LoggedIn]) {
      screen := LoginPrompt;
    } else if logoutClicked {
      s.Logout();
      screen := LoggedOut;
    } else {
      screen := Welcome;
    }
  }

  /** Logging out and rerunning the script: the session holds only `logged_in = False`. */
  method LogoutThenRerun(s: Session) returns (first: HomeScreen, second: HomeScreen)
    requires IsLoggedIn(s.state)
    modifies s
    ensures first == LoggedOut && second == LoginPrompt
    ensures s.state == map[LoggedIn := Flag(false)]
  {
    first := Home(s, true);
    second := Home(s, false);
  }
}
