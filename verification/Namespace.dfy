/** Encoded namespaces (internal/episodic/namespace.go:11-90).  Strings are the sequences of their bytes;
    an encoded namespace is ASCII, so a LIKE matcher sees the same bytes as characters. */
module Namespace {
  import opened Wrappers
  import opened Bytes

  datatype Encoding = Encoded(value: seq<Byte>) | NoSegments | TooDeep | EmptySegment(at: nat)

  /** The record separator. */
  const RS: Byte := 0x1E
  const Percent: Byte := 0x25
  const Underscore: Byte := 0x5F
  const Backslash: Byte := 0x5C

  // ---- Percent-encoding of one segment -------------------------------------------------------------

  /** A byte that url.PathEscape leaves alone: a letter, a digit or one of $ & + - . : = @ _ ~. */
  predicate Plain(c: Byte) {
    || 0x30 <= c <= 0x39 || 0x41 <= c <= 0x5A || 0x61 <= c <= 0x7A
    || c in {0x24, 0x26, 0x2B, 0x2D, 0x2E, 0x3A, 0x3D, 0x40, 0x5F, 0x7E}
  }

  function HexDigit(n: nat): Byte
    requires n < 16
  {
    if n < 10 then 0x30 + n else 0x37 + n
  }

  function EscapeByte(c: Byte): (r: seq<Byte>)
    ensures RS !in r && Backslash !in r && r != []
  {
    if Plain(c) then [c] else [Percent, HexDigit(c / 16), HexDigit(c % 16)]
  }

  function PathEscape(s: seq<Byte>): seq<Byte> {
    if s == [] then [] else EscapeByte(s[0]) + PathEscape(s[1..])
  }

  function HexValue(c: Byte): (r: Option<nat>)
    ensures r.Some? ==> r.value < 16
  {
    if 0x30 <= c <= 0x39 then Some(c - 0x30)
    else if 0x41 <= c <= 0x46 then Some(c - 0x37)
    else if 0x61 <= c <= 0x66 then Some(c - 0x57)
    else None
  }

  /** Malformed escapes are errors. */
  function PathUnescape(s: seq<Byte>): Option<seq<Byte>> {
    if s == [] then Some([])
    else if s[0] == Percent then
      if |s| < 3 || HexValue(s[1]).None? || HexValue(s[2]).None? then None
      else
        var rest := PathUnescape(s[3..]);
        if rest.None? then None else Some([HexValue(s[1]).value * 16 + HexValue(s[2]).value] + rest.value)
    else
      var rest := PathUnescape(s[1..]);
      if rest.None? then None else Some([s[0]] + rest.value)
  }

  lemma HexRoundTrip(n: nat)
    requires n < 16
    ensures HexValue(HexDigit(n)) == Some(n)
  {
  }

  lemma PlainIsNotPercent(c: Byte)
    ensures Plain(c) ==> c != Percent
  {
  }

  lemma UnescapeByte(c: Byte, s: seq<Byte>)
    requires PathUnescape(s).Some?
    ensures PathUnescape(EscapeByte(c) + s) == Some([c] + PathUnescape(s).value)
  {
    var t := EscapeByte(c) + s;
    var high: nat, low: nat := c / 16, c % 16;
    HexRoundTrip(high);
    HexRoundTrip(low);
    PlainIsNotPercent(c);
    hide HexValue, HexDigit, Plain;
    if Plain(c) {
      assert t[0] == c && t[1..] == s;
    } else {
      assert t[3..] == s && t[0] == Percent && t[1] == HexDigit(high) && t[2] == HexDigit(low);
      assert high * 16 + low == c;
    }
  }

  lemma {:induction false} UnescapeEscape(s: seq<Byte>)
    ensures PathUnescape(PathEscape(s)) == Some(s)
  {
    if s != [] {
      UnescapeEscape(s[1..]);
      UnescapeByte(s[0], PathEscape(s[1..]));
      assert [s[0]] + s[1..] == s;
    }
  }

  lemma {:induction false} EscapeClean(s: seq<Byte>)
    ensures RS !in PathEscape(s) && Backslash !in PathEscape(s)
    ensures PathEscape(s) == [] <==> s == []
  {
    if s != [] {
      EscapeClean(s[1..]);
    }
  }

  /** Letters, digits and ten signs are kept. */
  ghost predicate Kept(c: Byte) {
    || 'a' as int <= c <= 'z' as int || 'A' as int <= c <= 'Z' as int || '0' as int <= c <= '9' as int
    || c in {'$' as int, '&' as int, '+' as int, '-' as int, '.' as int, ':' as int, '=' as int, '@' as int, '_' as int, '~' as int}
  }

  /** Every other byte becomes a percent sign and two upper-case digits. */
  lemma EscapeMeaning(c: Byte)
    ensures PathEscape([c]) ==
            if Kept(c) then [c] else ['%' as int, "0123456789ABCDEF"[c / 16] as int, "0123456789ABCDEF"[c % 16] as int]
  {
    assert [c][1..] == [] && PathEscape([]) == [];
    DigitMeaning(c / 16);
    DigitMeaning(c % 16);
    hide HexDigit;
    assert EscapeByte(c) + [] == EscapeByte(c);
  }

  lemma DigitMeaning(n: nat)
    requires n < 16
    ensures HexDigit(n) == "0123456789ABCDEF"[n] as int
  {
  }

  /** A segment is escaped byte by byte. */
  lemma {:induction false} EscapeConcat(a: seq<Byte>, b: seq<Byte>)
    ensures PathEscape(a + b) == PathEscape(a) + PathEscape(b)
  {
    if a == [] {
      assert a + b == b;
    } else {
      EscapeConcat(a[1..], b);
      assert (a + b)[1..] == a[1..] + b && (a + b)[0] == a[0];
      hide EscapeByte;
      Regroup(EscapeByte(a[0]), PathEscape(a[1..]), PathEscape(b));
    }
  }

  ghost predicate IsHex(c: Byte) {
    '0' as int <= c <= '9' as int || 'A' as int <= c <= 'F' as int || 'a' as int <= c <= 'f' as int
  }

  /** The percent sign at `i` is not followed by two hexadecimal digits. */
  ghost predicate Malformed(s: seq<Byte>, i: nat) {
    i < |s| && s[i] == '%' as int && !(i + 2 < |s| && IsHex(s[i + 1]) && IsHex(s[i + 2]))
  }

  /** Decoding fails exactly for a percent sign that does not start an escape. */
  lemma {:induction false} UnescapeFails(s: seq<Byte>)
    ensures PathUnescape(s).None? <==> exists i: nat :: Malformed(s, i)
    decreases |s|
  {
    if s != [] {
      var n: nat := if s[0] != Percent then 1 else if Malformed(s, 0) then 0 else 3;
      if n > 0 {
        UnescapeFails(s[n..]);
        forall i: nat ensures Malformed(s[n..], i) ==> Malformed(s, i + n) {}
        forall i: nat | Malformed(s, i) ensures i >= n && Malformed(s[n..], i - n) {
          assert i != 0;
        }
        assert n == 3 ==> HexValue(s[1]).Some? && HexValue(s[2]).Some?;
      }
    }
  }

  // ---- Joining and splitting --------------------------------------------------------------------------

  function Join(parts: seq<seq<Byte>>): seq<Byte> {
    if parts == [] then [] else if |parts| == 1 then parts[0] else parts[0] + [RS] + Join(parts[1..])
  }

  /** The position of the first separator, or the length. */
  function FirstSep(s: seq<Byte>): (r: nat)
    ensures r <= |s| && (forall i | 0 <= i < r :: s[i] != RS) && (r < |s| ==> s[r] == RS)
  {
    if s == [] || s[0] == RS then 0 else 1 + FirstSep(s[1..])
  }

  /** Splits at separators into at most `n` parts; the last part takes the rest. */
  function SplitN(s: seq<Byte>, n: nat): (r: seq<seq<Byte>>)
    requires n >= 1
    ensures 1 <= |r| <= n
    decreases |s|
  {
    var i := FirstSep(s);
    if n == 1 || i == |s| then [s] else [s[..i]] + SplitN(s[i + 1..], n - 1)
  }

  function Split(s: seq<Byte>): (r: seq<seq<Byte>>)
    ensures r != []
    decreases |s|
  {
    var i := FirstSep(s);
    if i == |s| then [s] else [s[..i]] + Split(s[i + 1..])
  }

  ghost predicate Clean(parts: seq<seq<Byte>>) {
    forall i | 0 <= i < |parts| :: RS !in parts[i]
  }

  lemma FirstSepAfter(a: seq<Byte>, b: seq<Byte>)
    requires RS !in a
    ensures FirstSep(a + [RS] + b) == |a| && (a + [RS] + b)[..|a|] == a && (a + [RS] + b)[|a| + 1..] == b
    ensures FirstSep(a) == |a|
  {
    var s := a + [RS] + b;
    assert s[|a|] == RS;
    assert forall i | 0 <= i < |a| :: s[i] == a[i] && s[i] in a;
  }

  lemma SplitNext(a: seq<Byte>, b: seq<Byte>)
    requires RS !in a
    ensures Split(a + [RS] + b) == [a] + Split(b) && Split(a) == [a]
  {
    FirstSepAfter(a, b);
  }

  lemma {:induction false} SplitJoin(parts: seq<seq<Byte>>)
    requires parts != [] && Clean(parts)
    ensures Split(Join(parts)) == parts
    decreases |parts|
  {
    var first, rest := parts[0], parts[1..];
    assert RS !in first && Clean(rest) && parts == [first] + rest;
    if rest == [] {
      hide Split;
      SplitNext(first, []);
    } else {
      assert Join(parts) == first + [RS] + Join(rest);
      hide *;
      SplitNext(first, Join(rest));
      SplitJoin(rest);
    }
  }

  lemma SplitNNext(a: seq<Byte>, b: seq<Byte>, n: nat)
    requires RS !in a && n > 1
    ensures SplitN(a + [RS] + b, n) == [a] + SplitN(b, n - 1)
    ensures SplitN(a, n) == [a]
  {
    FirstSepAfter(a, b);
  }

  /** `r` is `parts` cut into `n`, of which the last may hold several. */
  ghost predicate CutInto(parts: seq<seq<Byte>>, n: nat, r: seq<seq<Byte>>)
    requires n >= 1
  {
    if |parts| <= n then r == parts else |r| == n && r[..n - 1] == parts[..n - 1]
  }

  lemma CutNext(first: seq<Byte>, rest: seq<seq<Byte>>, n: nat, r: seq<seq<Byte>>)
    requires n > 1 && CutInto(rest, n - 1, r)
    ensures CutInto([first] + rest, n, [first] + r)
  {
    if |rest| > n - 1 {
      assert ([first] + r)[..n - 1] == [first] + r[..n - 2];
      assert ([first] + rest)[..n - 1] == [first] + rest[..n - 2];
    }
  }

  lemma {:induction false} SplitNJoin(parts: seq<seq<Byte>>, n: nat)
    requires parts != [] && Clean(parts) && n >= 1
    ensures CutInto(parts, n, SplitN(Join(parts), n))
    decreases |parts|
  {
    if n > 1 && |parts| == 1 {
      SplitNNext(parts[0], [], n);
    } else if n > 1 {
      var first, rest := parts[0], parts[1..];
      assert Join(parts) == first + [RS] + Join(rest) && Clean(rest) && RS !in first;
      hide *;
      SplitNNext(first, Join(rest), n);
      SplitNJoin(rest, n - 1);
      CutNext(first, rest, n, SplitN(Join(rest), n - 1));
      assert parts == [first] + rest;
    }
  }

  lemma {:induction false} JoinConcat(a: seq<seq<Byte>>, b: seq<seq<Byte>>)
    requires a != [] && b != []
    ensures Join(a + b) == Join(a) + [RS] + Join(b)
  {
    assert (a + b)[1..] == a[1..] + b;
    if |a| > 1 {
      JoinConcat(a[1..], b);
      assert a[0] + [RS] + (Join(a[1..]) + [RS] + Join(b)) == a[0] + [RS] + Join(a[1..]) + [RS] + Join(b);
    } else {
      assert a[1..] + b == b;
    }
  }

  lemma JoinTwice(x: seq<Byte>, y: seq<Byte>, b: seq<Byte>)
    ensures x + [RS] + y + [RS] + b == x + [RS] + (y + [RS] + b)
  {
  }

  lemma AroundIndex(a: seq<Byte>, i: nat)
    requires i < |a|
    ensures a[..i] + [a[i]] + a[i + 1..] == a
  {
  }

  lemma AtFirstSep(a: seq<Byte>)
    ensures FirstSep(a) == |a| ==> RS !in a
    ensures FirstSep(a) < |a| ==>
              var i := FirstSep(a); RS !in a[..i] && a[..i] + [RS] + a[i + 1..] == a
  {
    hide FirstSep;
    var i: nat := FirstSep(a);
    if i < |a| {
      AroundIndex(a, i);
    }
  }

  lemma {:induction false} SplitConcat(a: seq<Byte>, b: seq<Byte>)
    ensures Split(a + [RS] + b) == Split(a) + Split(b)
    decreases |a|
  {
    hide *;
    var i := FirstSep(a);
    AtFirstSep(a);
    if i == |a| {
      SplitNext(a, b);
    } else {
      var x, y := a[..i], a[i + 1..];
      SplitNext(x, y);
      SplitNext(x, y + [RS] + b);
      JoinTwice(x, y, b);
      SplitConcat(y, b);
    }
  }

  // ---- Encoding and decoding -----------------------------------------------------------------------------

  function EscapeAll(segments: seq<seq<Byte>>): (r: seq<seq<Byte>>)
    ensures |r| == |segments|
  {
    seq(|segments|, i requires 0 <= i < |segments| => PathEscape(segments[i]))
  }

  /** The stored form of a namespace. */
  function Enc(segments: seq<seq<Byte>>): seq<Byte> {
    Join(EscapeAll(segments))
  }

  ghost predicate FirstEmpty(segments: seq<seq<Byte>>, i: nat) {
    i < |segments| && segments[i] == [] && forall k | 0 <= k < i :: segments[k] != []
  }

  ghost predicate Nonempty(segments: seq<seq<Byte>>) {
    segments != [] && forall k | 0 <= k < |segments| :: segments[k] != []
  }

  method EncodeNamespace(segments: seq<seq<Byte>>, maxDepth: int) returns (r: Encoding)
    ensures r == NoSegments <==> segments == []
    ensures r == TooDeep <==> segments != [] && 0 < maxDepth < |segments|
    ensures forall i: nat :: r == EmptySegment(i) <==> segments != [] && !(0 < maxDepth < |segments|) && FirstEmpty(segments, i)
    ensures r.Encoded? <==> Nonempty(segments) && !(0 < maxDepth < |segments|)
    ensures r.Encoded? ==> r.value == Enc(segments)
  {
    if |segments| == 0 {
      return NoSegments;
    }
    if maxDepth > 0 && |segments| > maxDepth {
      return TooDeep;
    }
    var encoded: seq<seq<Byte>> := [];
    for i := 0 to |segments|
      invariant forall k | 0 <= k < i :: segments[k] != []
      invariant encoded == EscapeAll(segments[..i])
    {
      if segments[i] == [] {
        assert FirstEmpty(segments, i);
        return EmptySegment(i);
      }
      encoded := encoded + [PathEscape(segments[i])];
    }
    assert segments[..|segments|] == segments;
    return Encoded(Join(encoded));
  }

  /** The segments that the parts decode to, or none if one of them is malformed. */
  function UnescapeAll(parts: seq<seq<Byte>>): (r: Option<seq<seq<Byte>>>)
    ensures r.Some? ==> |r.value| == |parts| && forall i | 0 <= i < |parts| :: PathUnescape(parts[i]) == Some(r.value[i])
    ensures r.None? ==> exists i :: 0 <= i < |parts| && PathUnescape(parts[i]).None?
  {
    if parts == [] then Some([])
    else
      var front, last := UnescapeAll(parts[..|parts| - 1]), PathUnescape(parts[|parts| - 1]);
      if front.None? || last.None? then None else Some(front.value + [last.value])
  }

  function Dec(encoded: seq<Byte>): Option<seq<seq<Byte>>> {
    if encoded == [] then None else UnescapeAll(Split(encoded))
  }

  lemma {:induction false} UnescapeAllFails(parts: seq<seq<Byte>>, i: nat)
    requires i < |parts| && PathUnescape(parts[i]).None?
    ensures UnescapeAll(parts).None?
  {
    if i < |parts| - 1 {
      UnescapeAllFails(parts[..|parts| - 1], i);
    }
  }

  ghost predicate MalformedPart(parts: seq<seq<Byte>>, i: nat, k: nat) {
    i < |parts| && Malformed(parts[i], k)
  }

  /** A namespace cannot be decoded exactly if it is empty or one of its parts is malformed. */
  lemma DecodeFails(encoded: seq<Byte>)
    ensures Dec(encoded).None? <==> encoded == [] || exists i: nat, k: nat :: MalformedPart(Split(encoded), i, k)
  {
    PartsFail(Split(encoded));
    assert encoded != [] ==> Dec(encoded) == UnescapeAll(Split(encoded));
    assert encoded == [] ==> Dec(encoded) == None;
  }

  lemma PartsFail(parts: seq<seq<Byte>>)
    ensures UnescapeAll(parts).None? <==> exists i: nat, k: nat :: MalformedPart(parts, i, k)
  {
    hide PathUnescape, Malformed;
    var decoded := UnescapeAll(parts);
    if decoded.None? {
      var i: nat :| i < |parts| && PathUnescape(parts[i]).None?;
      UnescapeFails(parts[i]);
      var k: nat :| Malformed(parts[i], k);
      assert MalformedPart(parts, i, k);
    } else {
      forall i: nat, k: nat ensures !MalformedPart(parts, i, k) {
        if i < |parts| {
          assert PathUnescape(parts[i]) == Some(decoded.value[i]);
          UnescapeFails(parts[i]);
        }
      }
    }
  }

  method DecodeNamespace(encoded: seq<Byte>) returns (r: Option<seq<seq<Byte>>>)
    ensures r == Dec(encoded)
  {
    if encoded == [] {
      return None;
    }
    var parts := Split(encoded);
    var segments: seq<seq<Byte>> := [];
    for i := 0 to |parts|
      invariant UnescapeAll(parts[..i]) == Some(segments)
    {
      var seg := PathUnescape(parts[i]);
      if seg.None? {
        UnescapeAllFails(parts, i);
        return None;
      }
      assert parts[..i + 1][..i] == parts[..i];
      segments := segments + [seg.value];
    }
    assert parts[..|parts|] == parts;
    return Some(segments);
  }

  lemma EscapedClean(segments: seq<seq<Byte>>)
    ensures Clean(EscapeAll(segments))
  {
    forall i | 0 <= i < |segments| ensures RS !in EscapeAll(segments)[i] {
      EscapeClean(segments[i]);
    }
  }

  lemma SplitEnc(segments: seq<seq<Byte>>)
    requires segments != []
    ensures Split(Enc(segments)) == EscapeAll(segments)
  {
    EscapedClean(segments);
    SplitJoin(EscapeAll(segments));
  }

  lemma UnescapeEscapeAll(segments: seq<seq<Byte>>)
    ensures UnescapeAll(EscapeAll(segments)) == Some(segments)
  {
    var r := UnescapeAll(EscapeAll(segments));
    forall i | 0 <= i < |segments| ensures PathUnescape(EscapeAll(segments)[i]) == Some(segments[i]) {
      UnescapeEscape(segments[i]);
    }
    assert r.value == segments;
  }

  lemma EncNotEmpty(segments: seq<seq<Byte>>)
    requires Nonempty(segments)
    ensures Enc(segments) != []
  {
    EscapeClean(segments[0]);
  }

  /** Decoding an encoded namespace gives its segments back. */
  lemma NamespaceRoundTrip(segments: seq<seq<Byte>>)
    requires Nonempty(segments)
    ensures Dec(Enc(segments)) == Some(segments)
  {
    EncNotEmpty(segments);
    SplitEnc(segments);
    UnescapeEscapeAll(segments);
  }

  lemma EncodingInjective(a: seq<seq<Byte>>, b: seq<seq<Byte>>)
    requires Nonempty(a) && Nonempty(b)
    ensures Enc(a) == Enc(b) <==> a == b
  {
    NamespaceRoundTrip(a);
    NamespaceRoundTrip(b);
  }

  // ---- Truncation and suffixes -----------------------------------------------------------------------------

  function NamespaceTruncate(encoded: seq<Byte>, depth: nat): seq<Byte> {
    var parts := SplitN(encoded, depth + 1);
    if |parts| <= depth then encoded else Join(parts[..depth])
  }

  /** Truncating an encoding is encoding the first segments. */
  lemma TruncateMeaning(segments: seq<seq<Byte>>, depth: nat)
    requires segments != []
    ensures depth >= |segments| ==> NamespaceTruncate(Enc(segments), depth) == Enc(segments)
    ensures depth < |segments| ==> NamespaceTruncate(Enc(segments), depth) == Enc(segments[..depth])
  {
    EscapedClean(segments);
    SplitNJoin(EscapeAll(segments), depth + 1);
    if depth < |segments| {
      assert EscapeAll(segments)[..depth] == EscapeAll(segments[..depth]);
    }
  }

  method MatchesSuffix(encoded: seq<Byte>, suffix: seq<seq<Byte>>) returns (b: bool)
    ensures b <==> suffix == [] || (Dec(encoded).Some? && EndsWith(Dec(encoded).value, suffix))
  {
    if |suffix| == 0 {
      return true;
    }
    var segments := DecodeNamespace(encoded);
    if segments.None? || |segments.value| < |suffix| {
      return false;
    }
    var tail := segments.value[|segments.value| - |suffix|..];
    for i := 0 to |suffix|
      invariant tail[..i] == suffix[..i]
    {
      if tail[i] != suffix[i] {
        return false;
      }
      assert tail[..i + 1] == tail[..i] + [tail[i]];
    }
    assert tail[..|suffix|] == tail && suffix[..|suffix|] == suffix;
    return true;
  }

  ghost predicate EndsWith(s: seq<seq<Byte>>, suffix: seq<seq<Byte>>) {
    |suffix| <= |s| && s[|s| - |suffix|..] == suffix
  }

  ghost predicate Suffix(encoded: seq<Byte>, suffix: seq<seq<Byte>>) {
    suffix == [] || (Dec(encoded).Some? && EndsWith(Dec(encoded).value, suffix))
  }

  /** On an encoded namespace the suffix test is the suffix of lists. */
  lemma SuffixMeaning(segments: seq<seq<Byte>>, suffix: seq<seq<Byte>>)
    requires Nonempty(segments)
    ensures Suffix(Enc(segments), suffix) <==> exists front :: segments == front + suffix
  {
    NamespaceRoundTrip(segments);
    if Suffix(Enc(segments), suffix) {
      assert segments == segments[..|segments| - |suffix|] + suffix;
    }
  }
}
