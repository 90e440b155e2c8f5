/** `renderMessages` in the chat widget: an empty history shows a note,
    otherwise each message becomes a bubble, classed `mine` and labelled
    `Ich` when the viewer wrote it and `admin` / `Support` otherwise, with
    its text escaped.

    The viewer is `currentUser`, of which only the id matters; `None`
    stands for `null`. The DOM and the polling around the list are not
    modelled. */
module ChatWidget {
  import opened Wrappers
  import opened HtmlEscape
  import opened AuthResolver
  import opened ChatRoutes

  const OwnLabel: string := "Ich"
  const SupportLabel: string := "Support"
  const OwnClass: string := "mine"
  const SupportClass: string := "admin"

  /** The viewer wrote the message: it has no (truthy) admin id, so it comes
      from the visitor side, or its admin id is the viewer's own. */
  predicate IsMine(m: ChatMessage, currentUserId: Option<int>) {
    !IsTruthyId(m.adminId) || (currentUserId.Some? && m.adminId.value == currentUserId.value)
  }

  /** One bubble: its CSS class, its label and the escaped message text. */
  datatype Bubble = Bubble(cls: string, meta: string, text: string)

  datatype Rendering = Placeholder | Bubbles(bubbles: seq<Bubble>)

  function RenderBubble(m: ChatMessage, currentUserId: Option<int>): (b: Bubble)
    ensures b.cls == OwnClass <==> IsMine(m, currentUserId)
    ensures b.meta == OwnLabel <==> b.cls == OwnClass
    ensures b.cls == OwnClass || b.cls == SupportClass
    ensures b.meta == OwnLabel || b.meta == SupportLabel
    ensures Unescape(b.text) == m.nachricht && IsInert(b.text)
  {
    var isAdminMessage := IsTruthyId(m.adminId);
    var mine := !isAdminMessage || (currentUserId.Some? && m.adminId.value == currentUserId.value);
    UnescapeEscape(m.nachricht);
    EscapeIsInert(m.nachricht);
    Bubble(if mine then OwnClass else SupportClass,
           if mine then OwnLabel else SupportLabel,
           EscapeHtml(Some(m.nachricht)))
  }

  /** The history as the widget shows it: a note for an empty one,
      otherwise one bubble per message, in order. */
  function RenderMessages(messages: seq<ChatMessage>, currentUserId: Option<int>): (r: Rendering)
    ensures r.Placeholder? <==> messages == []
    ensures r.Bubbles? ==>
      && |r.bubbles| == |messages|
      && forall k :: 0 <= k < |messages| ==> r.bubbles[k] == RenderBubble(messages[k], currentUserId)
  {
    if messages == [] then Placeholder
    else Bubbles(seq(|messages|, k requires 0 <= k < |messages| => RenderBubble(messages[k], currentUserId)))
  }

  /** A visitor's own messages are always theirs; a reply is theirs only
      when the viewer is the admin who wrote it, and shows as `Support` to
      everyone else, anonymous viewers included. */
  lemma ClassificationCases(m: ChatMessage, currentUserId: Option<int>)
    ensures !IsTruthyId(m.adminId) ==> RenderBubble(m, currentUserId).cls == OwnClass
    ensures IsTruthyId(m.adminId) && currentUserId == m.adminId ==>
      RenderBubble(m, currentUserId).meta == OwnLabel
    ensures IsTruthyId(m.adminId) && currentUserId != m.adminId ==>
      RenderBubble(m, currentUserId).meta == SupportLabel
  {
  }
}
