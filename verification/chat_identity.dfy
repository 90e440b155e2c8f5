/** Visitor identity of the live chat: `sanitizeChatIdentity` validates what
    the chat form posts, `getSessionChatIdentity` reads back what an earlier
    request stored in the session. */
module ChatIdentity {
  import opened Wrappers
  import opened Text
  import opened Email

  /** The three form fields; a missing or falsy field arrives as "". */
  datatype IdentityInput = IdentityInput(vorname: string, nachname: string, email: string)

  datatype Identity = Identity(vorname: string, nachname: string, email: string)

  /** The two messages `sanitizeChatIdentity` throws. */
  datatype IdentityError = MissingFields | InvalidEmail

  predicate IsTrimmed(s: string) {
    |s| > 0 ==> !IsJsWhitespace(s[0]) && !IsJsWhitespace(s[|s| - 1])
  }

  predicate NoAsciiUpper(s: string) {
    forall i :: 0 <= i < |s| ==> !IsAsciiUpper(s[i])
  }

  /** A sanitised identity: trimmed, non-empty names and a lower-case address
      of the required shape. */
  ghost predicate IsCleanIdentity(id: Identity) {
    && id.vorname != [] && IsTrimmed(id.vorname)
    && id.nachname != [] && IsTrimmed(id.nachname)
    && IsTrimmed(id.email) && NoAsciiUpper(id.email)
    && MatchesEmailPattern(id.email)
  }

  function AsInput(id: Identity): IdentityInput {
    IdentityInput(id.vorname, id.nachname, id.email)
  }

  /** `sanitizeChatIdentity(input)`: missing fields are reported before a
      malformed address; on success the fields come back trimmed and the
      address lower-cased. */
  function SanitizeChatIdentity(input: IdentityInput): (r: Result<Identity, IdentityError>)
    ensures r.Success? <==>
      && Trim(input.vorname) != []
      && Trim(input.nachname) != []
      && Trim(input.email) != []
      && IsEmailAddress(Lower(Trim(input.email)))
    ensures r.Failure? ==>
      (r.error == MissingFields <==>
        Trim(input.vorname) == [] || Trim(input.nachname) == [] || Trim(input.email) == [])
    ensures r.Success? ==>
      && r.value.vorname == Trim(input.vorname)
      && r.value.nachname == Trim(input.nachname)
      && r.value.email == Lower(Trim(input.email))
  {
    var vorname := Trim(input.vorname);
    var nachname := Trim(input.nachname);
    var email := Lower(Trim(input.email));
    if vorname == [] || nachname == [] || email == [] then Failure(MissingFields)
    else if !IsEmailAddress(email) then Failure(InvalidEmail)
    else Success(Identity(vorname, nachname, email))
  }

  /** Acceptance in terms of the regular expression itself: the check
      succeeds exactly when the names are not blank and the trimmed,
      lower-cased address matches `EMAIL_REGEX`. */
  lemma SanitizeSucceedsIff(input: IdentityInput)
    ensures SanitizeChatIdentity(input).Success? <==>
      && Trim(input.vorname) != []
      && Trim(input.nachname) != []
      && MatchesEmailPattern(Lower(Trim(input.email)))
  {
    var email := Lower(Trim(input.email));
    IsEmailAddressMatchesPattern(email);
    if MatchesEmailPattern(email) {
      assert email != [];
    }
  }

  /** Whatever the check lets through is a clean identity. */
  lemma SanitizedIsClean(input: IdentityInput)
    requires SanitizeChatIdentity(input).Success?
    ensures IsCleanIdentity(SanitizeChatIdentity(input).value)
  {
    var id := SanitizeChatIdentity(input).value;
    LoweredTrimmedIsClean(Trim(input.email));
    IsEmailAddressMatchesPattern(id.email);
  }

  lemma LoweredTrimmedIsClean(t: string)
    requires IsTrimmed(t)
    ensures IsTrimmed(Lower(t)) && NoAsciiUpper(Lower(t))
  {
  }

  /** A clean identity passes the check again unchanged, which is why the
      widget can re-post the stored profile on every message. */
  lemma SanitizeAcceptsCleanIdentity(id: Identity)
    requires IsCleanIdentity(id)
    ensures SanitizeChatIdentity(AsInput(id)) == Success(id)
  {
    TrimOfTrimmed(id.vorname);
    TrimOfTrimmed(id.nachname);
    TrimOfTrimmed(id.email);
    assert Lower(id.email) == id.email;
    IsEmailAddressMatchesPattern(id.email);
  }

  /** Sanitising is idempotent. */
  lemma SanitizeIdempotent(input: IdentityInput)
    requires SanitizeChatIdentity(input).Success?
    ensures SanitizeChatIdentity(AsInput(SanitizeChatIdentity(input).value))
      == SanitizeChatIdentity(input)
  {
    SanitizedIsClean(input);
    SanitizeAcceptsCleanIdentity(SanitizeChatIdentity(input).value);
  }

  /** `getSessionChatIdentity(req)`: nothing unless all three stored fields
      are non-empty; the fields are re-trimmed and the address lower-cased. */
  function SessionChatIdentity(stored: Option<IdentityInput>): (r: Option<Identity>)
    ensures r.Some? <==>
      stored.Some? && stored.value.vorname != [] && stored.value.nachname != []
      && stored.value.email != []
    ensures r.Some? ==>
      && r.value.vorname == Trim(stored.value.vorname)
      && r.value.nachname == Trim(stored.value.nachname)
      && r.value.email == Lower(Trim(stored.value.email))
  {
    match stored
    case None => None
    case Some(v) =>
      if v.vorname == [] || v.nachname == [] || v.email == [] then None
      else Some(Identity(Trim(v.vorname), Trim(v.nachname), Lower(Trim(v.email))))
  }

  /** What a request stored in the session after sanitising is what the
      next request reads back. */
  lemma SessionIdentityRoundTrip(id: Identity)
    requires IsCleanIdentity(id)
    ensures SessionChatIdentity(Some(AsInput(id))) == Some(id)
  {
    SanitizeAcceptsCleanIdentity(id);
  }

  /** An identity that passed `sanitizeChatIdentity` and was stored in the
      session is read back unchanged. */
  lemma SanitizedIdentityRoundTrip(input: IdentityInput)
    requires SanitizeChatIdentity(input).Success?
    ensures SessionChatIdentity(Some(AsInput(SanitizeChatIdentity(input).value)))
      == Some(SanitizeChatIdentity(input).value)
  {
    SanitizedIsClean(input);
    SessionIdentityRoundTrip(SanitizeChatIdentity(input).value);
  }
}
