/**
 The synchronous case reducers of the application slice: login state, the
 last error message, the signed-in user's profile and time zone, and the
 loading flag.
 */
module AppSlice {
  import opened Wrappers

  /** The signed-in user's profile as the directory service returns it; only its identity matters here. */
  datatype User = User(id: string, displayName: string)

  datatype AppState = AppState(
    isLoggedIn: bool,
    error: string,
    user: Option<User>,
    timezone: string,
    loading: bool)

  datatype AppAction =
    | UserLoggedIn
    | UserLoggedOut
    | LoginFailed(message: string)
    | GetUserProfileFailed(message: string)
    | UserProfileSet(profile: User)
    | UserTimezoneSet(timezone: string)
    | HttpRequestFailed(message: string)
    | AppLoadingStarted
    | AppLoadingCompleted

  /** Not signed in, no error, no profile, no time zone, loading. */
  function InitialState(): (s: AppState)
    ensures !s.isLoggedIn && s.error == "" && s.user == None && s.timezone == "" && s.loading
  {
    AppState(false, "", None, "", true)
  }

  /** The slice's reducer as written: `userLoggedOut` sets `isLoggedIn` to true. */
  function Reduce(s: AppState, a: AppAction): AppState
  {
    match a
    case UserLoggedIn => s.(isLoggedIn := true)
    case UserLoggedOut => s.(isLoggedIn := true, error := "")
    case LoginFailed(message) => s.(error := message)
    case GetUserProfileFailed(message) => s.(error := message)
    case UserProfileSet(profile) => s.(user := Some(profile))
    case UserTimezoneSet(timezone) => s.(timezone := timezone)
    case HttpRequestFailed(message) => s.(error := message)
    case AppLoadingStarted => s.(loading := true)
    case AppLoadingCompleted => s.(loading := false)
  }

  /** The reducer with `userLoggedOut` clearing the login flag, as its name says. */
  function ReduceIntended(s: AppState, a: AppAction): AppState
  {
    match a
    case UserLoggedOut => s.(isLoggedIn := false, error := "")
    case _ => Reduce(s, a)
  }

  predicate IsErrorAction(a: AppAction)
  {
    a.LoginFailed? || a.GetUserProfileFailed? || a.HttpRequestFailed?
  }

  // ---------------------------------------------------------------------------
  // lemmas

  /** `userLoggedIn` sets the login flag and changes nothing else. */
  lemma LoggedInFrame(s: AppState)
    ensures Reduce(s, UserLoggedIn) == AppState(true, s.error, s.user, s.timezone, s.loading)
  {
  }

  /**
   As written, `userLoggedOut` leaves the user signed in (the flag is set to
   true), clearing only the error.
   */
  lemma LoggedOutStaysLoggedIn(s: AppState)
    ensures Reduce(s, UserLoggedOut).isLoggedIn
    ensures Reduce(s, UserLoggedOut) == AppState(true, "", s.user, s.timezone, s.loading)
  {
  }

  /** Signing in and then out, as written, still reads as signed in. */
  lemma LoginLogoutAsWritten()
    ensures Reduce(Reduce(InitialState(), UserLoggedIn), UserLoggedOut).isLoggedIn
  {
  }

  /** With the intended reducer, signing out clears the flag and the error, and nothing else. */
  lemma LoggedOutIntended(s: AppState)
    ensures !ReduceIntended(s, UserLoggedOut).isLoggedIn
    ensures ReduceIntended(s, UserLoggedOut) == AppState(false, "", s.user, s.timezone, s.loading)
    ensures ReduceIntended(ReduceIntended(s, UserLoggedIn), UserLoggedOut).isLoggedIn == false
  {
  }

  /** The intended reducer differs from the written one only on `userLoggedOut`. */
  lemma IntendedAgreesElsewhere(s: AppState, a: AppAction)
    requires !a.UserLoggedOut?
    ensures ReduceIntended(s, a) == Reduce(s, a)
  {
  }

  /** Every failure action replaces the error with its message and touches nothing else. */
  lemma FailureReplacesError(s: AppState, a: AppAction)
    requires IsErrorAction(a)
    ensures Reduce(s, a) == s.(error := a.message)
  {
  }

  /** Of two failures, the later message is the one kept. */
  lemma LastErrorWins(s: AppState, first: AppAction, second: AppAction)
    requires IsErrorAction(first) && IsErrorAction(second)
    ensures Reduce(Reduce(s, first), second) == s.(error := second.message)
  {
  }

  /** The loading actions set the flag, and each is idempotent. */
  lemma LoadingFlags(s: AppState)
    ensures Reduce(s, AppLoadingStarted).loading && !Reduce(s, AppLoadingCompleted).loading
    ensures Reduce(Reduce(s, AppLoadingStarted), AppLoadingStarted) == Reduce(s, AppLoadingStarted)
    ensures Reduce(Reduce(s, AppLoadingCompleted), AppLoadingCompleted) == Reduce(s, AppLoadingCompleted)
    ensures Reduce(s, AppLoadingStarted) == s.(loading := true)
    ensures Reduce(s, AppLoadingCompleted) == s.(loading := false)
  {
  }

  /** `userTimezoneSet` and `userProfileSet` replace their own field only. */
  lemma SettersFrame(s: AppState, timezone: string, profile: User)
    ensures Reduce(s, UserTimezoneSet(timezone)) == AppState(s.isLoggedIn, s.error, s.user, timezone, s.loading)
    ensures Reduce(s, UserProfileSet(profile)) == AppState(s.isLoggedIn, s.error, Some(profile), s.timezone, s.loading)
  {
  }
}
