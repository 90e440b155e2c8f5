/** The server's own `Cookie` header reader `parseCookies`, a simplified
    reading of section 4.2.1 of RFC 6265: split at `;`, split each piece at
    its first `=`, trim both halves, percent-decode the value, and let a
    later cookie of the same name win. The cookies are collected in a plain
    object, so one named `__proto__` reaches the prototype setter, which
    ignores a string: that cookie is decoded but never stored.

    `decodeURIComponent` is a parameter: it returns `None` where the
    JavaScript function throws a `URIError`. */
module Cookies {
  import opened Wrappers
  import opened Text

  type Decoder = string -> Option<string>

  /** The one name a plain JavaScript object does not store as its own
      property when a string is assigned to it. */
  const ProtoKey: string := "__proto__"

  /** A cookie name and its still-encoded value. */
  type Entry = Option<(string, string)>

  /** The cookie a `;`-separated piece carries, if any: the first `=` splits
      it, and a piece with no `=` or with `=` in front carries nothing. */
  function SegmentEntry(segment: string): Entry {
    var i := IndexOf(segment, '=');
    if i <= 0 then None else Some((Trim(segment[..i]), Trim(segment[i + 1..])))
  }

  /** A piece carries a cookie exactly when it has an `=` that is not its
      first character; the name is what precedes the first `=`, trimmed, so
      it never holds an `=`, and the value is all that follows, trimmed, so
      it may. */
  lemma SegmentEntryShape(segment: string)
    ensures SegmentEntry(segment).None? <==> '=' !in segment || segment[0] == '='
    ensures SegmentEntry(segment).Some? ==>
      && '=' !in SegmentEntry(segment).value.0
      && exists i :: 0 < i < |segment| && segment[i] == '=' && '=' !in segment[..i]
           && SegmentEntry(segment).value == (Trim(segment[..i]), Trim(segment[i + 1..]))
  {
    var i := IndexOf(segment, '=');
    if i > 0 {
      TrimPieces(segment[..i]);
    }
  }

  /** `name=value` with a name free of `=` carries exactly that cookie,
      whatever the value holds, `=` included. */
  lemma SegmentEntryOf(name: string, value: string)
    requires name != [] && '=' !in name
    ensures SegmentEntry(name + "=" + value) == Some((Trim(name), Trim(value)))
  {
    var segment := name + "=" + value;
    assert segment[..|name|] == name && segment[|name|] == '=';
    IndexOfAt(segment, '=', |name|);
    assert segment[|name| + 1..] == value;
  }

  /** A piece without a name, or without any `=`, is skipped. */
  lemma SkippedSegmentExamples()
    ensures SegmentEntry("=orphan") == None
    ensures SegmentEntry("flag") == None
  {
    assert IndexOf("=orphan", '=') == 0;
    assert "flag" == ['f', 'l', 'a', 'g'];
  }

  /** The entries of the pieces of a header, in order. */
  function Entries(header: string): (es: seq<Entry>)
    ensures |es| == |Split(header, ';')|
  {
    var segments := Split(header, ';');
    seq(|segments|, k requires 0 <= k < |segments| => SegmentEntry(segments[k]))
  }

  datatype CookieError = MalformedEscape(value: string)

  /** One step of the `reduce` in `parseCookies` as written: a value that
      `decodeURIComponent` rejects aborts the whole parse, even under the
      name `__proto__`, which is otherwise not stored. */
  function StepAsWritten(e: Entry, decode: Decoder, acc: map<string, string>)
    : Result<map<string, string>, CookieError>
  {
    match e
    case None => Success(acc)
    case Some(entry) =>
      match decode(entry.1)
      case None => Failure(MalformedEscape(entry.1))
      case Some(value) =>
        if entry.0 == ProtoKey then Success(acc) else Success(acc[entry.0 := value])
  }

  function FoldAsWritten(es: seq<Entry>, decode: Decoder, acc: map<string, string>)
    : Result<map<string, string>, CookieError>
    decreases |es|
  {
    if es == [] then Success(acc)
    else
      match StepAsWritten(es[0], decode, acc)
      case Failure(err) => Failure(err)
      case Success(next) => FoldAsWritten(es[1..], decode, next)
  }

  /** `parseCookies(req)` as the server has it, throwing included. */
  function ParseCookiesAsWritten(header: string, decode: Decoder)
    : Result<map<string, string>, CookieError>
  {
    if header == [] then Success(map[]) else FoldAsWritten(Entries(header), decode, map[])
  }

  /** An entry named `key` whose value decodes. */
  predicate Carries(e: Entry, key: string, decode: Decoder) {
    e.Some? && e.value.0 == key && decode(e.value.1).Some?
  }

  /** The decoded value such an entry carries. */
  function CarriedValue(e: Entry, key: string, decode: Decoder): string
    requires Carries(e, key, decode)
  {
    decode(e.value.1).value
  }

  /** An entry whose value does not decode: the server's parse throws on it. */
  predicate HasBadEscape(e: Entry, decode: Decoder) {
    e.Some? && decode(e.value.1).None?
  }

  /** The position of the last entry that carries `key`, or -1. */
  function LastCarrier(es: seq<Entry>, key: string, decode: Decoder): (j: int)
    ensures -1 <= j < |es|
    ensures j >= 0 ==> Carries(es[j], key, decode)
    ensures forall k :: j < k < |es| ==> !Carries(es[k], key, decode)
    decreases |es|
  {
    if es == [] then -1
    else
      var t := LastCarrier(es[1..], key, decode);
      if t >= 0 then t + 1
      else if Carries(es[0], key, decode) then 0
      else -1
  }

  /** The reading the rest of the model uses: an entry whose value does not
      decode is ignored, as if its piece had no `=`. */
  function Step(e: Entry, decode: Decoder, acc: map<string, string>): map<string, string> {
    if e.Some? && decode(e.value.1).Some? && e.value.0 != ProtoKey then
      acc[e.value.0 := decode(e.value.1).value]
    else acc
  }

  function Fold(es: seq<Entry>, decode: Decoder, acc: map<string, string>): map<string, string>
    decreases |es|
  {
    if es == [] then acc else Fold(es[1..], decode, Step(es[0], decode, acc))
  }

  function ParseCookies(header: string, decode: Decoder): map<string, string> {
    if header == [] then map[] else Fold(Entries(header), decode, map[])
  }

  /** The fold never stores `__proto__`. */
  lemma {:induction false} FoldSkipsProto(es: seq<Entry>, decode: Decoder, acc: map<string, string>)
    ensures var r := Fold(es, decode, acc);
      (ProtoKey in r <==> ProtoKey in acc) && (ProtoKey in acc ==> r[ProtoKey] == acc[ProtoKey])
    decreases |es|
  {
    if es != [] {
      FoldSkipsProto(es[1..], decode, Step(es[0], decode, acc));
    }
  }

  /** The fold keeps, for every other name, the value of the last entry that
      carries it, and otherwise what the accumulator had. */
  lemma {:induction false} FoldLastWins(
    es: seq<Entry>, decode: Decoder, acc: map<string, string>, key: string)
    requires key != ProtoKey
    ensures var r := Fold(es, decode, acc);
      var j := LastCarrier(es, key, decode);
      && (j >= 0 ==> key in r && r[key] == CarriedValue(es[j], key, decode))
      && (j < 0 ==> (key in r <==> key in acc) && (key in acc ==> r[key] == acc[key]))
    decreases |es|
  {
    if es != [] {
      FoldLastWins(es[1..], decode, Step(es[0], decode, acc), key);
      var t := LastCarrier(es[1..], key, decode);
      if t >= 0 {
        assert es[1..][t] == es[t + 1];
      }
    }
  }

  /** A name is present exactly when it is not `__proto__` and some piece
      carries it with a value that decodes, and then it maps to the value of
      the last such piece. */
  lemma ParseCookiesLastWins(header: string, decode: Decoder, key: string)
    ensures var es := Entries(header);
      var j := LastCarrier(es, key, decode);
      && (key in ParseCookies(header, decode) <==> key != ProtoKey && j >= 0)
      && (key != ProtoKey && j >= 0 ==>
            ParseCookies(header, decode)[key] == CarriedValue(es[j], key, decode))
  {
    var es := Entries(header);
    if key == ProtoKey {
      FoldSkipsProto(es, decode, map[]);
    } else {
      FoldLastWins(es, decode, map[], key);
    }
    if header == [] {
      assert Split(header, ';') == [""] by {
        assert IndexOf(header, ';') == -1;
      }
      assert es[0] == None by {
        assert IndexOf("", '=') == -1;
      }
    }
  }

  /** Where the server's parse succeeds, the lenient reading agrees with it. */
  lemma {:induction false} FoldAgreesWithAsWritten(
    es: seq<Entry>, decode: Decoder, acc: map<string, string>)
    requires FoldAsWritten(es, decode, acc).Success?
    ensures Fold(es, decode, acc) == FoldAsWritten(es, decode, acc).value
    decreases |es|
  {
    if es != [] {
      FoldAgreesWithAsWritten(es[1..], decode, Step(es[0], decode, acc));
    }
  }

  lemma ParseCookiesAgreesWithAsWritten(header: string, decode: Decoder)
    requires ParseCookiesAsWritten(header, decode).Success?
    ensures ParseCookies(header, decode) == ParseCookiesAsWritten(header, decode).value
  {
    if header != [] {
      FoldAgreesWithAsWritten(Entries(header), decode, map[]);
    }
  }

  /** The server's parse fails as soon as one entry carries a value that
      does not decode, whatever the other entries hold ... */
  lemma {:induction false} FoldAsWrittenFailsOnBadEscape(
    es: seq<Entry>, decode: Decoder, acc: map<string, string>, bad: nat)
    requires bad < |es|
    requires HasBadEscape(es[bad], decode)
    ensures FoldAsWritten(es, decode, acc).Failure?
    decreases bad
  {
    if bad > 0 && StepAsWritten(es[0], decode, acc).Success? {
      assert es[1..][bad - 1] == es[bad];
      FoldAsWrittenFailsOnBadEscape(es[1..], decode, Step(es[0], decode, acc), bad - 1);
    }
  }

  /** ... and it fails only because of such an entry. */
  lemma {:induction false} FoldAsWrittenFailureHasCause(
    es: seq<Entry>, decode: Decoder, acc: map<string, string>) returns (bad: nat)
    requires FoldAsWritten(es, decode, acc).Failure?
    ensures bad < |es| && HasBadEscape(es[bad], decode)
    decreases |es|
  {
    if StepAsWritten(es[0], decode, acc).Failure? {
      bad := 0;
    } else {
      var b := FoldAsWrittenFailureHasCause(es[1..], decode, Step(es[0], decode, acc));
      assert es[1..][b] == es[b + 1];
      bad := b + 1;
    }
  }

  /** The server's parse of a non-empty header throws exactly when one of
      its pieces carries a value `decodeURIComponent` rejects. */
  lemma ParseCookiesAsWrittenFailsIff(header: string, decode: Decoder)
    ensures ParseCookiesAsWritten(header, decode).Failure? <==>
      header != [] &&
      exists k :: 0 <= k < |Entries(header)| && HasBadEscape(Entries(header)[k], decode)
  {
    var es := Entries(header);
    if ParseCookiesAsWritten(header, decode).Failure? {
      var bad := FoldAsWrittenFailureHasCause(es, decode, map[]);
    }
    if header != [] && exists k :: 0 <= k < |es| && HasBadEscape(es[k], decode) {
      var k :| 0 <= k < |es| && HasBadEscape(es[k], decode);
      FoldAsWrittenFailsOnBadEscape(es, decode, map[], k);
    }
  }
}
