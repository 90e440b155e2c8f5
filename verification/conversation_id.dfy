/** Conversation identifiers of the live chat: `normalizeConversationId`
    cleans whatever the client sends, `createConversationId` mints a fresh
    one from the runtime's randomness. */
module ConversationId {
  import opened Text

  const MaxConversationIdLength: nat := 80
  const ConversationIdPrefix: string := "chat_"

  /** The character class `[a-zA-Z0-9_-]`. */
  predicate IsIdChar(c: char) {
    ('a' <= c <= 'z') || ('A' <= c <= 'Z') || ('0' <= c <= '9') || c == '_' || c == '-'
  }

  predicate AllIdChars(s: string) {
    forall i :: 0 <= i < |s| ==> IsIdChar(s[i])
  }

  /** `replace(/[^a-zA-Z0-9_-]/g, '')`: the id characters of `s`, in order. */
  function KeepIdChars(s: string): (r: string)
    ensures |r| <= |s|
    ensures AllIdChars(r)
    ensures forall c :: c in r <==> c in s && IsIdChar(c)
  {
    if s == [] then []
    else if IsIdChar(s[0]) then [s[0]] + KeepIdChars(s[1..])
    else KeepIdChars(s[1..])
  }

  lemma {:induction false} KeepIdCharsConcat(a: string, b: string)
    ensures KeepIdChars(a + b) == KeepIdChars(a) + KeepIdChars(b)
    decreases |a|
  {
    if a == [] {
      assert a + b == b;
    } else {
      assert (a + b)[1..] == a[1..] + b;
      KeepIdCharsConcat(a[1..], b);
    }
  }

  /** Whitespace never survives the filter. */
  lemma {:induction false} KeepIdCharsOfWhitespace(s: string)
    requires AllWhitespace(s)
    ensures KeepIdChars(s) == []
    decreases |s|
  {
    if s != [] {
      assert !IsIdChar(s[0]);
      KeepIdCharsOfWhitespace(s[1..]);
    }
  }

  /** A string made of id characters passes the filter unchanged. */
  lemma {:induction false} KeepIdCharsOfIdChars(s: string)
    requires AllIdChars(s)
    ensures KeepIdChars(s) == s
    decreases |s|
  {
    if s != [] {
      KeepIdCharsOfIdChars(s[1..]);
    }
  }

  function Truncate(s: string, n: nat): (r: string)
    ensures |r| <= n && |r| <= |s| && r == s[..|r|]
    ensures |s| <= n ==> r == s
  {
    if |s| <= n then s else s[..n]
  }

  /** `normalizeConversationId(value)`, with a missing value passed as "". */
  function NormalizeConversationId(value: string): (r: string)
    ensures AllIdChars(r)
    ensures |r| <= MaxConversationIdLength
    ensures AllWhitespace(value) ==> r == []
  {
    var text := Trim(value);
    if text == [] then [] else Truncate(KeepIdChars(text), MaxConversationIdLength)
  }

  /** Trimming first makes no difference: the result is the first 80 id
      characters of the raw input. */
  lemma NormalizeIsTruncatedFilter(value: string)
    ensures NormalizeConversationId(value)
      == Truncate(KeepIdChars(value), MaxConversationIdLength)
  {
    TrimPieces(value);
    var lead, trail :| value == lead + Trim(value) + trail
      && AllWhitespace(lead) && AllWhitespace(trail);
    KeepIdCharsConcat(lead + Trim(value), trail);
    KeepIdCharsConcat(lead, Trim(value));
    KeepIdCharsOfWhitespace(lead);
    KeepIdCharsOfWhitespace(trail);
    assert KeepIdChars(value) == KeepIdChars(Trim(value));
    if Trim(value) == [] {
      assert KeepIdChars(Trim(value)) == [];
    }
  }

  /** Short ids made only of id characters are left as they are. */
  lemma NormalizeFixesCleanIds(s: string)
    requires AllIdChars(s) && |s| <= MaxConversationIdLength
    ensures NormalizeConversationId(s) == s
  {
    NormalizeIsTruncatedFilter(s);
    KeepIdCharsOfIdChars(s);
  }

  /** Normalising an already normalised id changes nothing. */
  lemma NormalizeIdempotent(value: string)
    ensures NormalizeConversationId(NormalizeConversationId(value))
      == NormalizeConversationId(value)
  {
    NormalizeFixesCleanIds(NormalizeConversationId(value));
  }

  type byte = x: int | 0 <= x < 256

  predicate IsLowerHex(c: char) {
    ('0' <= c <= '9') || ('a' <= c <= 'f')
  }

  predicate AllLowerHex(s: string) {
    forall i :: 0 <= i < |s| ==> IsLowerHex(s[i])
  }

  /** What `crypto.randomUUID()` returns: 8-4-4-4-12 lower-case hex digits
      joined by dashes. */
  predicate IsCanonicalUuid(u: string) {
    && |u| == 36
    && u[8] == '-' && u[13] == '-' && u[18] == '-' && u[23] == '-'
    && AllLowerHex(u[..8]) && AllLowerHex(u[9..13]) && AllLowerHex(u[14..18])
    && AllLowerHex(u[19..23]) && AllLowerHex(u[24..])
  }

  /** The two sources `createConversationId` draws on: `randomUUID` when the
      runtime has it, otherwise 16 bytes from `randomBytes`. */
  datatype Entropy =
    | RandomUuid(uuid: string)
    | RandomBytes(bytes: seq<byte>)

  predicate WellFormedEntropy(e: Entropy) {
    match e
    case RandomUuid(u) => IsCanonicalUuid(u)
    case RandomBytes(b) => |b| == 16
  }

  /** `replace(/-/g, '')`. */
  function RemoveDashes(s: string): string
  {
    if s == [] then [] else (if s[0] == '-' then [] else [s[0]]) + RemoveDashes(s[1..])
  }

  lemma {:induction false} RemoveDashesConcat(a: string, b: string)
    ensures RemoveDashes(a + b) == RemoveDashes(a) + RemoveDashes(b)
    decreases |a|
  {
    if a == [] {
      assert a + b == b;
    } else {
      assert (a + b)[1..] == a[1..] + b;
      RemoveDashesConcat(a[1..], b);
    }
  }

  lemma {:induction false} RemoveDashesOfHex(s: string)
    requires AllLowerHex(s)
    ensures RemoveDashes(s) == s
    decreases |s|
  {
    if s != [] {
      RemoveDashesOfHex(s[1..]);
    }
  }

  function HexDigit(d: nat): (c: char)
    requires d < 16
    ensures IsLowerHex(c)
  {
    "0123456789abcdef"[d]
  }

  /** `toString('hex')`: two lower-case hex digits per byte. */
  function HexEncode(bytes: seq<byte>): (r: string)
    ensures |r| == 2 * |bytes|
    ensures AllLowerHex(r)
  {
    if bytes == [] then []
    else [HexDigit(bytes[0] / 16), HexDigit(bytes[0] % 16)] + HexEncode(bytes[1..])
  }

  lemma StripGroup(g: string, rest: string)
    requires AllLowerHex(g)
    ensures RemoveDashes(g + "-" + rest) == g + RemoveDashes(rest)
  {
    var dash := "-";
    var x := g + dash;
    RemoveDashesConcat(x, rest);
    RemoveDashesConcat(g, dash);
    RemoveDashesOfHex(g);
    assert RemoveDashes(dash) == [] by {
      assert dash[1..] == [];
    }
    assert RemoveDashes(x) == g;
  }

  lemma SplitAtDash(s: string, i: nat)
    requires i < |s| && s[i] == '-'
    ensures s == s[..i] + "-" + s[i + 1..]
  {
  }

  lemma AllLowerHexConcat(a: string, b: string)
    requires AllLowerHex(a) && AllLowerHex(b)
    ensures AllLowerHex(a + b)
  {
    forall k | 0 <= k < |a + b| ensures IsLowerHex((a + b)[k]) {
      if k >= |a| {
        assert (a + b)[k] == b[k - |a|];
      }
    }
  }

  /** Dropping the dash in front of a hex group keeps the group and goes on
      with the rest. */
  lemma StripLeadingGroup(s: string, n: nat) returns (rest: string)
    requires n < |s| && s[n] == '-' && AllLowerHex(s[..n])
    ensures rest == s[n + 1..]
    ensures RemoveDashes(s) == s[..n] + RemoveDashes(rest)
  {
    rest := s[n + 1..];
    SplitAtDash(s, n);
    StripGroup(s[..n], rest);
  }

  /** `StripLeadingGroup` for the group `s[n..m]` of a suffix `s[n..]`. */
  lemma StripGroupAt(s: string, n: nat, m: nat)
    requires n < m < |s| && s[m] == '-' && AllLowerHex(s[n..m])
    ensures RemoveDashes(s[n..]) == s[n..m] + RemoveDashes(s[m + 1..])
  {
    var t := s[n..];
    assert t[..m - n] == s[n..m];
    var rest := StripLeadingGroup(t, m - n);
    assert rest == s[m + 1..];
  }

  /** The hex text a canonical UUID leaves once its dashes are gone. */
  lemma UuidWithoutDashes(u: string)
    requires IsCanonicalUuid(u)
    ensures |RemoveDashes(u)| == 32 && AllLowerHex(RemoveDashes(u))
  {
    assert u[0..] == u;
    StripGroupAt(u, 0, 8);
    StripGroupAt(u, 9, 13);
    StripGroupAt(u, 14, 18);
    StripGroupAt(u, 19, 23);
    RemoveDashesOfHex(u[24..]);
    AllLowerHexConcat(u[19..23], u[24..]);
    AllLowerHexConcat(u[14..18], RemoveDashes(u[19..]));
    AllLowerHexConcat(u[9..13], RemoveDashes(u[14..]));
    AllLowerHexConcat(u[..8], RemoveDashes(u[9..]));
  }

  /** `createConversationId()`: `chat_` followed by 32 lower-case hex digits,
      an id that normalisation leaves untouched. */
  function CreateConversationId(entropy: Entropy): (id: string)
    requires WellFormedEntropy(entropy)
    ensures |id| == |ConversationIdPrefix| + 32
    ensures id[..|ConversationIdPrefix|] == ConversationIdPrefix
    ensures AllLowerHex(id[|ConversationIdPrefix|..])
  {
    match entropy
    case RandomUuid(u) =>
      UuidWithoutDashes(u);
      ConversationIdPrefix + RemoveDashes(u)
    case RandomBytes(b) =>
      ConversationIdPrefix + HexEncode(b)
  }

  /** Minted ids are fixed points of normalisation, so a client that echoes
      one back keeps the same conversation. */
  lemma CreatedIdIsNormalized(entropy: Entropy)
    requires WellFormedEntropy(entropy)
    ensures NormalizeConversationId(CreateConversationId(entropy)) == CreateConversationId(entropy)
    ensures CreateConversationId(entropy) != []
  {
    var id := CreateConversationId(entropy);
    assert AllIdChars(id) by {
      forall i | 0 <= i < |id| ensures IsIdChar(id[i]) {
        if i >= |ConversationIdPrefix| {
          assert id[i] == id[|ConversationIdPrefix|..][i - |ConversationIdPrefix|];
        } else {
          assert id[i] == ConversationIdPrefix[i];
        }
      }
    }
    NormalizeFixesCleanIds(id);
  }
}
