/**
 The classifier the authentication hook uses to decide whether a failed
 silent token request needs an interactive popup.
 */
module AadAuth {
  import opened Text

  /** The error codes that call for user interaction. */
  const ConsentRequired: string := "consent_required"
  const InteractionRequired: string := "interaction_required"
  const LoginRequired: string := "login_required"
  const NoAccountInSilentRequest: string := "no_account_in_silent_request"

  /** `isInteractionRequired(error)`, over the error's message. */
  function IsInteractionRequired(message: string): (r: bool)
    ensures r <==> (|message| > 0 &&
      (Contains(message, ConsentRequired) || Contains(message, InteractionRequired)
       || Contains(message, LoginRequired) || Contains(message, NoAccountInSilentRequest)))
  {
    if |message| <= 0 then false
    else
      IndexOf(message, ConsentRequired) > -1
      || IndexOf(message, InteractionRequired) > -1
      || IndexOf(message, LoginRequired) > -1
      || IndexOf(message, NoAccountInSilentRequest) > -1
  }

  /** The empty message is never classified as needing interaction. */
  lemma EmptyMessageIsNotInteractive()
    ensures !IsInteractionRequired("")
  {
  }

  /** The error thrown when no account is signed in is classified as needing interaction. */
  lemma NoAccountsErrorIsInteractive()
    ensures IsInteractionRequired("login_required")
  {
    assert OccursAt(LoginRequired, LoginRequired, 0);
  }

  /** The four error codes that call for interaction. */
  predicate IsMarker(marker: string)
  {
    marker == ConsentRequired || marker == InteractionRequired
    || marker == LoginRequired || marker == NoAccountInSilentRequest
  }

  /** Any of the four codes anywhere inside a longer message is found. */
  lemma MarkerInsideMessage(prefix: string, marker: string, suffix: string)
    requires IsMarker(marker)
    ensures IsInteractionRequired(prefix + marker + suffix)
  {
    var m := prefix + marker + suffix;
    assert m[|prefix|..|prefix| + |marker|] == marker;
    assert OccursAt(m, marker, |prefix|);
  }

  /** A message with none of the four markers is not classified as needing interaction. */
  lemma NoMarkerIsNotInteractive(message: string)
    requires !Contains(message, ConsentRequired) && !Contains(message, InteractionRequired)
    requires !Contains(message, LoginRequired) && !Contains(message, NoAccountInSilentRequest)
    ensures !IsInteractionRequired(message)
  {
  }
}
