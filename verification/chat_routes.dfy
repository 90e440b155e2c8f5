/** The live-chat routes: opening a chat session, a visitor posting a
    message, an admin replying and an admin setting a conversation's status.

    Each route is a function from what the request and the store show to an
    outcome: the rejection the route answers with, or the record it asks the
    store to write. The store (`getChatConversationMeta`,
    `getChatMessagesByConversation`, `updateChatConversationState`,
    `findUserById`) appears as plain values. */
module ChatRoutes {
  import opened Wrappers
  import opened Text
  import opened ConversationId
  import opened ChatIdentity
  import opened AuthResolver

  /** Longest accepted message or reply. */
  const MaxMessageLength: nat := 1200

  /** The status a conversation starts with. */
  const DefaultStatus: string := "offen"

  /** The statuses an admin may set. */
  const AllowedStatuses: seq<string> := ["offen", "in_bearbeitung", "erledigt", "geschlossen"]

  /** The statuses in which visitors can no longer post. */
  const ClosedStatuses: seq<string> := ["geschlossen", "erledigt"]

  /** What `getChatConversationMeta` reports; absent text fields are "". */
  datatype ConversationMeta = ConversationMeta(status: string, deleted: bool, closedAt: string)

  /** A stored message as `getChatMessagesByConversation` lists it: the
      visitor fields it was written with and those of the linked account. */
  datatype ChatMessage = ChatMessage(
    userId: Option<int>, adminId: Option<int>, nachricht: string,
    visitorVorname: string, visitorNachname: string, visitorEmail: string,
    userVorname: string, userNachname: string, userEmail: string)

  /** The record a route hands to `createChatMessage`; `None` and "" stand
      for `null`. */
  datatype MessageDraft = MessageDraft(
    conversationId: string, nachricht: string,
    userId: Option<int>, adminId: Option<int>, adminDisplayName: string,
    status: string, deleted: bool, closedAt: string,
    visitorVorname: string, visitorNachname: string, visitorEmail: string)

  /** The chat part of the visitor's session. */
  datatype ChatSession = ChatSession(conversationId: string, identity: Option<IdentityInput>)

  datatype ChatError =
    | AuthDenied(gate: Gate)
    | MissingConversation
    | EmptyMessage
    | MessageTooLong
    | ConversationDeleted
    | ConversationClosed
    | MissingIdentity
    | InvalidIdentity(reason: IdentityError)
    | InvalidStatus
    | ConversationNotFound

  /** The HTTP status each rejection is answered with. */
  function HttpStatus(e: ChatError): int {
    match e
    case AuthDenied(g) => if g == Forbidden then 403 else 401
    case ConversationDeleted => 404
    case ConversationNotFound => 404
    case _ => 400
  }

  /** `x || y` on text. */
  function OrElse(x: string, y: string): (r: string)
    ensures r == [] <==> x == [] && y == []
    ensures x != [] ==> r == x
    ensures x == [] ==> r == y
  {
    if x != [] then x else y
  }

  // ---- POST /api/chat/session ----

  datatype SessionBody = SessionBody(conversationId: string, identity: IdentityInput)

  /** `POST /api/chat/session`: the identity must pass the form check; the
      requested conversation id is kept when something survives
      normalisation, otherwise a fresh one is minted. */
  function StartChatSession(body: SessionBody, entropy: Entropy): (r: Result<ChatSession, ChatError>)
    requires WellFormedEntropy(entropy)
  {
    match SanitizeChatIdentity(body.identity)
    case Failure(reason) => Failure(InvalidIdentity(reason))
    case Success(identity) =>
      var requested := NormalizeConversationId(body.conversationId);
      var id := if requested != [] then requested else CreateConversationId(entropy);
      Success(ChatSession(id, Some(AsInput(identity))))
  }

  /** The session a chat is started with names a usable conversation (one
      that normalisation keeps): the requested one when it survives
      normalisation, and otherwise the one minted from the entropy; and an
      identity the next request reads back unchanged. */
  lemma StartChatSessionSound(body: SessionBody, entropy: Entropy)
    requires WellFormedEntropy(entropy)
    ensures StartChatSession(body, entropy).Success? <==> SanitizeChatIdentity(body.identity).Success?
    ensures StartChatSession(body, entropy).Success? ==>
      var s := StartChatSession(body, entropy).value;
      && s.conversationId != []
      && NormalizeConversationId(s.conversationId) == s.conversationId
      && (NormalizeConversationId(body.conversationId) != [] ==>
            s.conversationId == NormalizeConversationId(body.conversationId))
      && (NormalizeConversationId(body.conversationId) == [] ==>
            s.conversationId == CreateConversationId(entropy))
      && SessionChatIdentity(s.identity) == Some(SanitizeChatIdentity(body.identity).value)
  {
    if SanitizeChatIdentity(body.identity).Success? {
      var identity := SanitizeChatIdentity(body.identity).value;
      var requested := NormalizeConversationId(body.conversationId);
      var s := StartChatSession(body, entropy).value;
      assert s.identity == Some(AsInput(identity));
      SanitizedIdentityRoundTrip(body.identity);
      if requested != [] {
        assert s.conversationId == requested;
        NormalizeIdempotent(body.conversationId);
      } else {
        assert s.conversationId == CreateConversationId(entropy);
        CreatedIdIsNormalized(entropy);
      }
    }
  }

  // ---- POST /api/chat/messages ----

  datatype PostBody = PostBody(conversationId: string, nachricht: string, identity: IdentityInput)

  /** The conversation a message goes to: the one named in the body, else
      the one remembered in the session, each normalised. */
  function ResolveConversation(bodyId: string, sessionId: string): (r: string)
    ensures AllIdChars(r) && |r| <= MaxConversationIdLength
    ensures r == [] <==>
      NormalizeConversationId(bodyId) == [] && NormalizeConversationId(sessionId) == []
    ensures NormalizeConversationId(bodyId) != [] ==> r == NormalizeConversationId(bodyId)
    ensures NormalizeConversationId(bodyId) == [] ==> r == NormalizeConversationId(sessionId)
  {
    OrElse(NormalizeConversationId(bodyId), NormalizeConversationId(sessionId))
  }

  /** The identity derived from an account: the stored names and the
      lower-cased address, unchecked. */
  function AccountIdentity(user: User): Identity {
    Identity(user.vorname, user.nachname, Lower(user.email))
  }

  /** Who is writing: the form fields if they pass the check, else the
      identity remembered in the session, else the logged-in account. */
  function ResolveIdentity(body: IdentityInput, session: ChatSession,
                           authUserId: Option<int>, users: map<int, User>): Option<Identity>
  {
    var fromForm := SanitizeChatIdentity(body);
    var fromRequest := if fromForm.Success? then Some(fromForm.value)
                       else SessionChatIdentity(session.identity);
    if fromRequest.None? && IsTruthyId(authUserId) && authUserId.value in users then
      Some(AccountIdentity(users[authUserId.value]))
    else fromRequest
  }

  /** Identity sources are tried in order, and the first that yields one
      wins. */
  lemma IdentityPrecedence(body: IdentityInput, session: ChatSession,
                           authUserId: Option<int>, users: map<int, User>)
    ensures var r := ResolveIdentity(body, session, authUserId, users);
      && (SanitizeChatIdentity(body).Success? ==> r == Some(SanitizeChatIdentity(body).value))
      && (SanitizeChatIdentity(body).Failure? && SessionChatIdentity(session.identity).Some? ==>
            r == SessionChatIdentity(session.identity))
      && (SanitizeChatIdentity(body).Failure? && SessionChatIdentity(session.identity).None?
          && IsTruthyId(authUserId) && authUserId.value in users ==>
            r == Some(AccountIdentity(users[authUserId.value])))
      && (r.None? <==>
            && SanitizeChatIdentity(body).Failure?
            && SessionChatIdentity(session.identity).None?
            && !(IsTruthyId(authUserId) && authUserId.value in users))
  {
  }

  function IsClosedStatus(status: string): bool {
    Lower(status) in ClosedStatuses
  }

  /** What a visitor's post comes to. */
  datatype PostOutcome =
    | PostRejected(error: ChatError)
    | PostAccepted(draft: MessageDraft, session: ChatSession, notify: bool)

  /** The decision of `POST /api/chat/messages` once the conversation id,
      the trimmed text and the identity are known. The checks run in the
      route's order: a conversation, a message, its length, a not-deleted
      and not-closed conversation, an identity. */
  function DecidePost(conversationId: string, text: string, authUserId: Option<int>,
                      meta: Option<ConversationMeta>, identity: Option<Identity>): PostOutcome
  {
    if conversationId == [] then PostRejected(MissingConversation)
    else if text == [] then PostRejected(EmptyMessage)
    else if |text| > MaxMessageLength then PostRejected(MessageTooLong)
    else if meta.Some? && meta.value.deleted then PostRejected(ConversationDeleted)
    else if meta.Some? && IsClosedStatus(meta.value.status) then PostRejected(ConversationClosed)
    else if identity.None? then PostRejected(MissingIdentity)
    else
      var id := identity.value;
      var draft := MessageDraft(
        conversationId, text,
        if IsTruthyId(authUserId) then authUserId else None, None, "",
        if meta.Some? then OrElse(meta.value.status, DefaultStatus) else DefaultStatus,
        false,
        if meta.Some? then meta.value.closedAt else "",
        id.vorname, id.nachname, id.email);
      PostAccepted(draft, ChatSession(conversationId, Some(AsInput(id))), meta.None?)
  }

  /** `POST /api/chat/messages`. An accepted post inherits the
      conversation's status and closing time, is remembered in the session,
      and triggers the notification mail when it opens a new conversation. */
  function PostChatMessage(body: PostBody, session: ChatSession, authUserId: Option<int>,
                           meta: Option<ConversationMeta>, users: map<int, User>): PostOutcome
  {
    DecidePost(
      ResolveConversation(body.conversationId, session.conversationId),
      Trim(body.nachricht), authUserId, meta,
      ResolveIdentity(body.identity, session, authUserId, users))
  }

  /** Each rejection happens exactly when its check fails and every earlier
      one passed. */
  lemma DecidePostRejections(conversationId: string, text: string, authUserId: Option<int>,
                             meta: Option<ConversationMeta>, identity: Option<Identity>)
    ensures var r := DecidePost(conversationId, text, authUserId, meta, identity);
      var open := meta.None? || (!meta.value.deleted && !IsClosedStatus(meta.value.status));
      && (r == PostRejected(MissingConversation) <==> conversationId == [])
      && (r == PostRejected(EmptyMessage) <==> conversationId != [] && text == [])
      && (r == PostRejected(MessageTooLong) <==>
            conversationId != [] && |text| > MaxMessageLength)
      && (r == PostRejected(ConversationDeleted) <==>
            conversationId != [] && text != [] && |text| <= MaxMessageLength
            && meta.Some? && meta.value.deleted)
      && (r == PostRejected(ConversationClosed) <==>
            conversationId != [] && text != [] && |text| <= MaxMessageLength
            && meta.Some? && !meta.value.deleted && IsClosedStatus(meta.value.status))
      && (r == PostRejected(MissingIdentity) <==>
            conversationId != [] && text != [] && |text| <= MaxMessageLength && open
            && identity.None?)
      && (r.PostAccepted? <==>
            conversationId != [] && text != [] && |text| <= MaxMessageLength && open
            && identity.Some?)
  {
  }

  /** `offen` is not a closed status. */
  lemma DefaultStatusIsOpen()
    ensures !IsClosedStatus(DefaultStatus)
  {
    assert Lower(DefaultStatus) == DefaultStatus;
  }

  /** An accepted post is a visitor message with the text and conversation
      it was decided on, under the identity resolved for it: no admin, not
      deleted, linked to the account exactly when one is logged in, and in
      the conversation's status, or `offen` for a new or status-less one,
      which is never a closed status. The session then points at that
      conversation with that identity, and the mail goes out exactly for a
      new conversation. */
  lemma DecidePostAccepted(conversationId: string, text: string, authUserId: Option<int>,
                           meta: Option<ConversationMeta>, identity: Option<Identity>)
    requires DecidePost(conversationId, text, authUserId, meta, identity).PostAccepted?
    ensures var r := DecidePost(conversationId, text, authUserId, meta, identity);
      var d := r.draft;
      var id := identity.value;
      && d.conversationId == conversationId && d.nachricht == text
      && d.adminId.None? && !d.deleted
      && (IsTruthyId(authUserId) <==> d.userId.Some?)
      && (d.userId.Some? ==> d.userId == authUserId)
      && d.status != [] && !IsClosedStatus(d.status)
      && (meta.Some? && meta.value.status != [] ==> d.status == meta.value.status)
      && (meta.None? || meta.value.status == [] ==> d.status == DefaultStatus)
      && (meta.Some? ==> d.closedAt == meta.value.closedAt)
      && (meta.None? ==> d.closedAt == [])
      && (d.visitorVorname, d.visitorNachname, d.visitorEmail) == (id.vorname, id.nachname, id.email)
      && r.session == ChatSession(conversationId, Some(AsInput(id)))
      && (r.notify <==> meta.None?)
  {
    DefaultStatusIsOpen();
  }

  /** The conversation a post resolves to is one that normalisation keeps. */
  lemma ResolvedConversationIsNormal(bodyId: string, sessionId: string)
    ensures var c := ResolveConversation(bodyId, sessionId);
      NormalizeConversationId(c) == c
  {
    NormalizeIdempotent(bodyId);
    NormalizeIdempotent(sessionId);
  }

  /** For the route itself: an accepted post writes the trimmed message,
      non-empty and at most 1200 characters long, into a conversation that
      normalisation keeps, under the identity resolved for the request. */
  lemma PostAcceptedDraft(body: PostBody, session: ChatSession, authUserId: Option<int>,
                          meta: Option<ConversationMeta>, users: map<int, User>)
    requires PostChatMessage(body, session, authUserId, meta, users).PostAccepted?
    ensures var d := PostChatMessage(body, session, authUserId, meta, users).draft;
      var id := ResolveIdentity(body.identity, session, authUserId, users);
      && d.conversationId != [] && NormalizeConversationId(d.conversationId) == d.conversationId
      && d.nachricht == Trim(body.nachricht) && d.nachricht != []
      && |d.nachricht| <= MaxMessageLength
      && id.Some?
      && (d.visitorVorname, d.visitorNachname, d.visitorEmail)
           == (id.value.vorname, id.value.nachname, id.value.email)
  {
    var c := ResolveConversation(body.conversationId, session.conversationId);
    var t := Trim(body.nachricht);
    var id := ResolveIdentity(body.identity, session, authUserId, users);
    DecidePostRejections(c, t, authUserId, meta, id);
    DecidePostAccepted(c, t, authUserId, meta, id);
    ResolvedConversationIsNormal(body.conversationId, session.conversationId);
  }

  /** A follow-up post that names no conversation lands in the same one as
      the post before it, through the session that post left behind. */
  lemma FollowUpStaysInConversation(
    body: PostBody, session: ChatSession, authUserId: Option<int>,
    meta: Option<ConversationMeta>, users: map<int, User>, next: PostBody)
    requires PostChatMessage(body, session, authUserId, meta, users).PostAccepted?
    requires AllWhitespace(next.conversationId)
    ensures var r := PostChatMessage(body, session, authUserId, meta, users);
      ResolveConversation(next.conversationId, r.session.conversationId) == r.draft.conversationId
  {
    var c := ResolveConversation(body.conversationId, session.conversationId);
    var t := Trim(body.nachricht);
    var id := ResolveIdentity(body.identity, session, authUserId, users);
    DecidePostAccepted(c, t, authUserId, meta, id);
    ResolvedConversationIsNormal(body.conversationId, session.conversationId);
  }

  /** A conversation whose status reads `geschlossen` or `erledigt`, in any
      letter case, takes no more visitor messages. */
  lemma ClosedConversationRefusesPosts(
    body: PostBody, session: ChatSession, authUserId: Option<int>,
    meta: ConversationMeta, users: map<int, User>)
    requires IsClosedStatus(meta.status)
    ensures !PostChatMessage(body, session, authUserId, Some(meta), users).PostAccepted?
  {
    DecidePostRejections(
      ResolveConversation(body.conversationId, session.conversationId),
      Trim(body.nachricht), authUserId, Some(meta),
      ResolveIdentity(body.identity, session, authUserId, users));
  }

  // ---- POST /api/admin/chats/:conversationId/reply ----

  datatype ReplyBody = ReplyBody(nachricht: string, adminAnzeigename: string)

  /** The name shown with a reply: the override typed in the admin view,
      else the admin's full name, else the admin's address. */
  function DisplayName(override: string, admin: User): string {
    OrElse(Trim(override), OrElse(Trim(admin.vorname + " " + admin.nachname), admin.email))
  }

  /** The display name is the first source that is not blank: the trimmed
      override, the trimmed full name, the address; it is blank only when
      every source is. */
  lemma DisplayNameBlankIff(override: string, admin: User)
    ensures DisplayName(override, admin) == [] <==>
      AllWhitespace(override) && AllWhitespace(admin.vorname + " " + admin.nachname)
      && admin.email == []
    ensures !AllWhitespace(override) ==> DisplayName(override, admin) == Trim(override)
    ensures AllWhitespace(override) && !AllWhitespace(admin.vorname + " " + admin.nachname) ==>
      DisplayName(override, admin) == Trim(admin.vorname + " " + admin.nachname)
    ensures AllWhitespace(override) && AllWhitespace(admin.vorname + " " + admin.nachname) ==>
      DisplayName(override, admin) == admin.email
  {
  }

  datatype ReplyOutcome = ReplyRejected(error: ChatError) | ReplyAccepted(draft: MessageDraft)

  /** `POST /api/admin/chats/:conversationId/reply` behind `requireAdmin`.
      The reply goes to the account and visitor of the conversation's latest
      message. */
  function AdminReply(authUserId: Option<int>, users: map<int, User>, idParam: string,
                      body: ReplyBody, meta: Option<ConversationMeta>,
                      messages: seq<ChatMessage>): ReplyOutcome
  {
    match RequireAdmin(authUserId, users)
    case AdminDenied(g) => ReplyRejected(AuthDenied(g))
    case AdminGranted(admin) =>
      var conversationId := NormalizeConversationId(idParam);
      var text := Trim(body.nachricht);
      if conversationId == [] then ReplyRejected(MissingConversation)
      else if text == [] then ReplyRejected(EmptyMessage)
      else if |text| > MaxMessageLength then ReplyRejected(MessageTooLong)
      else if meta.None? || meta.value.deleted then ReplyRejected(ConversationNotFound)
      else if messages == [] then ReplyRejected(ConversationNotFound)
      else
        var latest := messages[|messages| - 1];
        ReplyAccepted(MessageDraft(
          conversationId, text,
          if IsTruthyId(latest.userId) then latest.userId else None,
          Some(admin.id),
          DisplayName(body.adminAnzeigename, admin),
          OrElse(meta.value.status, DefaultStatus), false, meta.value.closedAt,
          OrElse(latest.visitorVorname, latest.userVorname),
          OrElse(latest.visitorNachname, latest.userNachname),
          OrElse(latest.visitorEmail, latest.userEmail)))
  }

  /** Only admins reply; a reply answers the latest message of a live
      conversation: it carries the admin's id, is addressed to that
      message's account and visitor (the visitor's name and address, each
      falling back to the account's), and keeps the conversation's status
      and closing time. */
  lemma AdminReplyAccepted(authUserId: Option<int>, users: map<int, User>, idParam: string,
                           body: ReplyBody, meta: Option<ConversationMeta>,
                           messages: seq<ChatMessage>)
    requires AdminReply(authUserId, users, idParam, body, meta, messages).ReplyAccepted?
    ensures var d := AdminReply(authUserId, users, idParam, body, meta, messages).draft;
      var latest := messages[|messages| - 1];
      && RequireAdmin(authUserId, users).AdminGranted?
      && d.adminId == Some(RequireAdmin(authUserId, users).admin.id)
      && d.adminDisplayName == DisplayName(body.adminAnzeigename, RequireAdmin(authUserId, users).admin)
      && meta.Some? && !meta.value.deleted
      && d.conversationId == NormalizeConversationId(idParam) && d.conversationId != []
      && d.nachricht == Trim(body.nachricht) && d.nachricht != []
      && |d.nachricht| <= MaxMessageLength
      && (IsTruthyId(latest.userId) ==> d.userId == latest.userId)
      && (!IsTruthyId(latest.userId) ==> d.userId.None?)
      && (latest.visitorEmail != [] ==> d.visitorEmail == latest.visitorEmail)
      && (latest.visitorEmail == [] ==> d.visitorEmail == latest.userEmail)
      && (latest.visitorVorname != [] ==> d.visitorVorname == latest.visitorVorname)
      && (latest.visitorVorname == [] ==> d.visitorVorname == latest.userVorname)
      && (latest.visitorNachname != [] ==> d.visitorNachname == latest.visitorNachname)
      && (latest.visitorNachname == [] ==> d.visitorNachname == latest.userNachname)
      && d.status == OrElse(meta.value.status, DefaultStatus) && !d.deleted
      && d.closedAt == meta.value.closedAt
  {
  }

  /** For an admin, each rejection of a reply happens exactly when its check
      fails and every earlier one passed: an id, a text, its length, a live
      conversation, a message in it. */
  lemma AdminReplyRejections(authUserId: Option<int>, users: map<int, User>, idParam: string,
                             body: ReplyBody, meta: Option<ConversationMeta>,
                             messages: seq<ChatMessage>)
    ensures var r := AdminReply(authUserId, users, idParam, body, meta, messages);
      var admin := RequireAdmin(authUserId, users).AdminGranted?;
      var c := NormalizeConversationId(idParam);
      var t := Trim(body.nachricht);
      var textOk := c != [] && t != [] && |t| <= MaxMessageLength;
      && (r == ReplyRejected(MissingConversation) <==> admin && c == [])
      && (r == ReplyRejected(EmptyMessage) <==> admin && c != [] && t == [])
      && (r == ReplyRejected(MessageTooLong) <==> admin && c != [] && |t| > MaxMessageLength)
      && (r == ReplyRejected(ConversationNotFound) <==>
            admin && textOk && (meta.None? || meta.value.deleted || messages == []))
      && (r.ReplyAccepted? <==>
            admin && textOk && meta.Some? && !meta.value.deleted && messages != [])
  {
  }

  /** A request that `requireAdmin` turns away never reaches the handler. */
  lemma AdminReplyGated(authUserId: Option<int>, users: map<int, User>, idParam: string,
                        body: ReplyBody, meta: Option<ConversationMeta>,
                        messages: seq<ChatMessage>)
    requires RequireAdmin(authUserId, users).AdminDenied?
    ensures AdminReply(authUserId, users, idParam, body, meta, messages)
      == ReplyRejected(AuthDenied(RequireAdmin(authUserId, users).gate))
  {
  }

  // ---- PATCH /api/admin/chats/:conversationId/status ----

  /** `PATCH /api/admin/chats/:conversationId/status` behind `requireAdmin`:
      the status is trimmed and lower-cased and must be one of the four
      allowed; the conversation gets it and is marked not deleted. Its
      closing time is recomputed from the new status: `now` when it is a
      closed one, none (`null`, here "") otherwise. */
  function SetConversationStatus(authUserId: Option<int>, users: map<int, User>,
                                 idParam: string, statusRaw: string, now: string,
                                 conversations: map<string, ConversationMeta>)
    : (r: Result<map<string, ConversationMeta>, ChatError>)
  {
    match RequireAdmin(authUserId, users)
    case AdminDenied(g) => Failure(AuthDenied(g))
    case AdminGranted(_) =>
      var conversationId := NormalizeConversationId(idParam);
      var status := Lower(Trim(statusRaw));
      if conversationId == [] then Failure(MissingConversation)
      else if status !in AllowedStatuses then Failure(InvalidStatus)
      else if conversationId !in conversations then Failure(ConversationNotFound)
      else
        var closedAt := if status in ClosedStatuses then now else "";
        Success(conversations[conversationId := ConversationMeta(status, false, closedAt)])
  }

  /** A status update touches one conversation only: it then carries the
      requested status, normalised, and is no longer deleted; it is closed
      at `now` when the new status is a closed one and reopened (no closing
      time) otherwise; every other conversation is as before. */
  lemma SetStatusEffect(authUserId: Option<int>, users: map<int, User>,
                        idParam: string, statusRaw: string, now: string,
                        conversations: map<string, ConversationMeta>)
    requires SetConversationStatus(authUserId, users, idParam, statusRaw, now, conversations).Success?
    ensures var after := SetConversationStatus(authUserId, users, idParam, statusRaw, now, conversations).value;
      var id := NormalizeConversationId(idParam);
      && RequireAdmin(authUserId, users).AdminGranted?
      && id in conversations
      && after.Keys == conversations.Keys
      && after[id].status == Lower(Trim(statusRaw)) && after[id].status in AllowedStatuses
      && !after[id].deleted
      && (after[id].status in ClosedStatuses ==> after[id].closedAt == now)
      && (after[id].status !in ClosedStatuses ==> after[id].closedAt == [])
      && (forall k :: k in conversations && k != id ==> after[k] == conversations[k])
  {
  }

  /** Which status makes the update go through: exactly the four allowed
      ones, in any letter case and with surrounding whitespace. */
  lemma SetStatusAcceptsIff(authUserId: Option<int>, users: map<int, User>,
                            idParam: string, statusRaw: string, now: string,
                            conversations: map<string, ConversationMeta>)
    requires RequireAdmin(authUserId, users).AdminGranted?
    requires NormalizeConversationId(idParam) != []
    requires NormalizeConversationId(idParam) in conversations
    ensures SetConversationStatus(authUserId, users, idParam, statusRaw, now, conversations).Success?
      <==> Lower(Trim(statusRaw)) in AllowedStatuses
  {
  }

  /** Setting a closed status stops visitors from posting to the
      conversation. */
  lemma ClosingStopsVisitors(authUserId: Option<int>, users: map<int, User>,
                             idParam: string, statusRaw: string, now: string,
                             conversations: map<string, ConversationMeta>,
                             body: PostBody, session: ChatSession, visitor: Option<int>)
    requires SetConversationStatus(authUserId, users, idParam, statusRaw, now, conversations).Success?
    requires Lower(Trim(statusRaw)) in ClosedStatuses
    ensures var after := SetConversationStatus(authUserId, users, idParam, statusRaw, now, conversations).value;
      var id := NormalizeConversationId(idParam);
      !PostChatMessage(body, session, visitor, Some(after[id]), users).PostAccepted?
  {
    var after := SetConversationStatus(authUserId, users, idParam, statusRaw, now, conversations).value;
    var id := NormalizeConversationId(idParam);
    SetStatusEffect(authUserId, users, idParam, statusRaw, now, conversations);
    LowerIdempotent(Trim(statusRaw));
    ClosedConversationRefusesPosts(body, session, visitor, after[id], users);
  }

  /** Setting an open status lets visitors post again: a post to the
      conversation is then accepted exactly when it names a conversation,
      carries a text of 1 to 1200 characters and has an identity. */
  lemma ReopeningAcceptsPosts(authUserId: Option<int>, users: map<int, User>,
                              idParam: string, statusRaw: string, now: string,
                              conversations: map<string, ConversationMeta>,
                              body: PostBody, session: ChatSession, visitor: Option<int>)
    requires SetConversationStatus(authUserId, users, idParam, statusRaw, now, conversations).Success?
    requires Lower(Trim(statusRaw)) !in ClosedStatuses
    ensures var after := SetConversationStatus(authUserId, users, idParam, statusRaw, now, conversations).value;
      var id := NormalizeConversationId(idParam);
      var c := ResolveConversation(body.conversationId, session.conversationId);
      var t := Trim(body.nachricht);
      PostChatMessage(body, session, visitor, Some(after[id]), users).PostAccepted? <==>
        c != [] && t != [] && |t| <= MaxMessageLength
        && ResolveIdentity(body.identity, session, visitor, users).Some?
  {
    var after := SetConversationStatus(authUserId, users, idParam, statusRaw, now, conversations).value;
    var id := NormalizeConversationId(idParam);
    SetStatusEffect(authUserId, users, idParam, statusRaw, now, conversations);
    LowerIdempotent(Trim(statusRaw));
    assert !IsClosedStatus(after[id].status);
    DecidePostRejections(
      ResolveConversation(body.conversationId, session.conversationId),
      Trim(body.nachricht), visitor, Some(after[id]),
      ResolveIdentity(body.identity, session, visitor, users));
  }
}
