/** Namespace prefixes as SQL LIKE patterns (internal/episodic/namespace.go:54-62), and what the two SQL
    stores find with them (internal/plugin/store/postgres/episodic_store.go:491,
    internal/plugin/store/sqlite/episodic_store.go:486). */
module NamespacePrefix {
  import opened Wrappers
  import opened Bytes
  import opened Namespace

  /** Escapes the metacharacters of LIKE. */
  function EscapeLike(s: seq<Byte>): seq<Byte> {
    if s == [] then []
    else (if s[0] == Backslash || s[0] == Percent || s[0] == Underscore then [Backslash, s[0]] else [s[0]]) + EscapeLike(s[1..])
  }

  function NamespacePrefixPattern(prefixEncoded: seq<Byte>): seq<Byte> {
    EscapeLike(prefixEncoded) + [RS] + [Percent]
  }

  /** LIKE with backslash as the escape character. */
  predicate Like(s: seq<Byte>, p: seq<Byte>)
    decreases |p| + |s|
  {
    if p == [] then s == []
    else if p[0] == Percent then Like(s, p[1..]) || (s != [] && Like(s[1..], p))
    else if p[0] == Underscore then s != [] && Like(s[1..], p[1..])
    else if p[0] == Backslash then |p| >= 2 && s != [] && s[0] == p[1] && Like(s[1..], p[2..])
    else s != [] && s[0] == p[0] && Like(s[1..], p[1..])
  }

  lemma {:induction false} PercentMatchesAll(s: seq<Byte>)
    ensures Like(s, [Percent])
  {
    assert [Percent][1..] == [];
    if s != [] {
      PercentMatchesAll(s[1..]);
    }
  }

  lemma LikeByte(c: Byte, s: seq<Byte>, p: seq<Byte>)
    ensures Like(s, EscapeLike([c]) + p) <==> s != [] && s[0] == c && Like(s[1..], p)
  {
    var q := EscapeLike([c]) + p;
    assert [c][1..] == [];
    if c == Backslash || c == Percent || c == Underscore {
      assert EscapeLike([c]) == [Backslash, c];
      assert q[0] == Backslash && q[1] == c && q[2..] == p;
    } else {
      assert EscapeLike([c]) == [c];
      assert q[0] == c && q[1..] == p;
    }
  }

  lemma EscapeFirst(t: seq<Byte>, p: seq<Byte>)
    requires t != []
    ensures EscapeLike(t) + p == EscapeLike([t[0]]) + (EscapeLike(t[1..]) + p)
  {
    assert [t[0]][1..] == [];
  }

  /** An escaped text matches itself only, whatever metacharacters it holds. */
  lemma {:induction false} LikeEscaped(s: seq<Byte>, t: seq<Byte>, p: seq<Byte>)
    ensures Like(s, EscapeLike(t) + p) <==> t <= s && Like(s[|t|..], p)
    decreases |t|
  {
    if t == [] {
      assert EscapeLike(t) + p == p && s[0..] == s;
    } else {
      EscapeFirst(t, p);
      LikeByte(t[0], s, EscapeLike(t[1..]) + p);
      hide Like, EscapeLike;
      if s != [] {
        LikeEscaped(s[1..], t[1..], p);
        PrefixStep(t, s);
      }
    }
  }

  lemma PrefixStep(t: seq<Byte>, s: seq<Byte>)
    requires t != [] && s != []
    ensures t <= s <==> t[0] == s[0] && t[1..] <= s[1..]
    ensures |t| <= |s| ==> s[1..][|t| - 1..] == s[|t|..]
  {
    if t <= s {
      assert s[1..][..|t| - 1] == s[..|t|][1..];
    }
    if t[0] == s[0] && t[1..] <= s[1..] {
      assert s[..|t|] == [s[0]] + s[1..][..|t| - 1];
      assert t == [t[0]] + t[1..];
    }
  }

  lemma LikeSeparator(s: seq<Byte>)
    ensures Like(s, [RS] + [Percent]) <==> s != [] && s[0] == RS
  {
    assert ([RS] + [Percent])[0] == RS && ([RS] + [Percent])[1..] == [Percent];
    if s != [] {
      PercentMatchesAll(s[1..]);
    }
  }

  lemma PatternMatches(s: seq<Byte>, e: seq<Byte>)
    ensures Like(s, NamespacePrefixPattern(e)) <==> e + [RS] <= s
  {
    assert NamespacePrefixPattern(e) == EscapeLike(e) + ([RS] + [Percent]);
    LikeEscaped(s, e, [RS] + [Percent]);
    if e <= s {
      LikeSeparator(s[|e|..]);
      assert s == e + s[|e|..];
    }
  }

  ghost predicate StrictlyExtends(ns: seq<seq<Byte>>, p: seq<seq<Byte>>) {
    p < ns
  }

  lemma {:induction false} EscapeAllPrefix(p: seq<seq<Byte>>, ns: seq<seq<Byte>>, rest: seq<seq<Byte>>)
    requires EscapeAll(ns) == EscapeAll(p) + rest
    ensures p <= ns
  {
    forall i | 0 <= i < |p| ensures p[i] == ns[i] {
      assert EscapeAll(ns)[i] == EscapeAll(p)[i];
      UnescapeEscape(p[i]);
      UnescapeEscape(ns[i]);
    }
  }

  /** Separators make byte prefixes list prefixes. */
  lemma EncodedPrefix(p: seq<seq<Byte>>, ns: seq<seq<Byte>>)
    requires p != [] && ns != []
    ensures Enc(p) + [RS] <= Enc(ns) <==> StrictlyExtends(ns, p)
  {
    if Enc(p) + [RS] <= Enc(ns) {
      var rest := Enc(ns)[|Enc(p)| + 1..];
      assert Enc(ns) == Enc(p) + [RS] + rest;
      SplitConcat(Enc(p), rest);
      SplitEnc(p);
      SplitEnc(ns);
      EscapeAllPrefix(p, ns, Split(rest));
      assert |EscapeAll(ns)| > |EscapeAll(p)|;
    }
    if StrictlyExtends(ns, p) {
      var tail := ns[|p|..];
      JoinConcat(EscapeAll(p), EscapeAll(tail));
      assert EscapeAll(ns) == EscapeAll(p) + EscapeAll(tail);
    }
  }

  /** An encoded namespace matches the pattern of an encoded prefix exactly if its segments strictly
      extend the prefix's, whatever bytes they are made of. */
  lemma PatternMeaning(p: seq<seq<Byte>>, ns: seq<seq<Byte>>)
    requires Nonempty(p) && Nonempty(ns)
    ensures Like(Enc(ns), NamespacePrefixPattern(Enc(p))) <==> StrictlyExtends(ns, p)
  {
    PatternMatches(Enc(ns), Enc(p));
    EncodedPrefix(p, ns);
  }

  /** So with the equality that the PostgreSQL store adds, the namespaces under a prefix are found; the
      pattern alone, against its comment, does not match the prefix itself. */
  lemma PrefixSearch(p: seq<seq<Byte>>, ns: seq<seq<Byte>>)
    requires Nonempty(p) && Nonempty(ns)
    ensures Enc(ns) == Enc(p) || Like(Enc(ns), NamespacePrefixPattern(Enc(p))) <==> p <= ns
    ensures !Like(Enc(p), NamespacePrefixPattern(Enc(p)))
  {
    PatternMeaning(p, ns);
    PatternMeaning(p, p);
    EncodingInjective(ns, p);
  }

  // ---- LIKE without an escape character ----------------------------------------------------------------

  /** An ASCII letter in lower case. */
  function Lower(c: Byte): Byte {
    if 0x41 <= c <= 0x5A then c + 0x20 else c
  }

  /** SQLite's LIKE: no escape character unless the query names one, and ASCII letters match in either case. */
  predicate PlainLike(s: seq<Byte>, p: seq<Byte>)
    decreases |p| + |s|
  {
    if p == [] then s == []
    else if p[0] == Percent then PlainLike(s, p[1..]) || (s != [] && PlainLike(s[1..], p))
    else if p[0] == Underscore then s != [] && PlainLike(s[1..], p[1..])
    else s != [] && Lower(s[0]) == Lower(p[0]) && PlainLike(s[1..], p[1..])
  }

  function LowerAll(s: seq<Byte>): (r: seq<Byte>)
    ensures |r| == |s|
  {
    seq(|s|, i requires 0 <= i < |s| => Lower(s[i]))
  }

  ghost predicate HasMeta(s: seq<Byte>) {
    Percent in s || Underscore in s || Backslash in s
  }

  lemma {:induction false} PlainPercentMatchesAll(s: seq<Byte>)
    ensures PlainLike(s, [Percent])
  {
    assert [Percent][1..] == [];
    if s != [] {
      PlainPercentMatchesAll(s[1..]);
    }
  }

  lemma PlainLikeByte(c: Byte, s: seq<Byte>, p: seq<Byte>)
    requires c != Percent && c != Underscore
    ensures PlainLike(s, [c] + p) <==> s != [] && Lower(s[0]) == Lower(c) && PlainLike(s[1..], p)
  {
    assert ([c] + p)[1..] == p;
  }

  /** A backslash in the pattern needs one in the text. */
  lemma {:induction false} PlainLikeMeta(s: seq<Byte>, t: seq<Byte>, p: seq<Byte>)
    requires Backslash !in s && HasMeta(t)
    ensures !PlainLike(s, EscapeLike(t) + p)
    decreases |t|
  {
    EscapeFirst(t, p);
    var c, q := t[0], EscapeLike(t[1..]) + p;
    assert EscapeLike([c]) == if c == Backslash || c == Percent || c == Underscore then [Backslash, c] else [c] by {
      assert [c][1..] == [];
    }
    hide PlainLike, EscapeLike, Lower;
    if c == Backslash || c == Percent || c == Underscore {
      assert [Backslash, c] + q == [Backslash] + ([c] + q);
      PlainLikeByte(Backslash, s, [c] + q);
      LowerBackslash(s);
    } else {
      PlainLikeByte(c, s, q);
      if s != [] {
        assert t == [c] + t[1..];
        PlainLikeMeta(s[1..], t[1..], p);
      }
    }
  }

  lemma LowerBackslash(s: seq<Byte>)
    requires Backslash !in s
    ensures s != [] ==> Lower(s[0]) != Lower(Backslash)
  {
    if s != [] {
      assert s[0] in s;
    }
  }

  lemma {:induction false} PlainLikeText(s: seq<Byte>, t: seq<Byte>, p: seq<Byte>)
    requires !HasMeta(t)
    ensures PlainLike(s, EscapeLike(t) + p) <==> LowerAll(t) <= LowerAll(s) && PlainLike(s[|t|..], p)
    decreases |t|
  {
    if t == [] {
      assert EscapeLike(t) + p == p && s[0..] == s;
    } else {
      var c := t[0];
      EscapeFirst(t, p);
      assert c in t;
      assert EscapeLike([c]) == [c] by {
        assert [c][1..] == [];
      }
      PlainLikeByte(c, s, EscapeLike(t[1..]) + p);
      if s != [] {
        PlainLikeText(s[1..], t[1..], p);
        assert LowerAll(t) == [Lower(c)] + LowerAll(t[1..]);
        assert LowerAll(s) == [Lower(s[0])] + LowerAll(s[1..]);
        LowerPrefix(c, s[0], t[1..], s[1..]);
        assert |t| <= |s| ==> s[1..][|t| - 1..] == s[|t|..];
      }
    }
  }

  lemma LowerPrefix(c: Byte, d: Byte, t: seq<Byte>, s: seq<Byte>)
    ensures [Lower(c)] + LowerAll(t) <= [Lower(d)] + LowerAll(s) <==> Lower(c) == Lower(d) && LowerAll(t) <= LowerAll(s)
  {
    var x, y := [Lower(c)] + LowerAll(t), [Lower(d)] + LowerAll(s);
    if x <= y {
      assert x[0] == y[0];
      assert x[1..] == y[..|x|][1..];
    }
  }

  lemma PlainLikeSeparator(s: seq<Byte>)
    ensures PlainLike(s, [RS] + [Percent]) <==> s != [] && s[0] == RS
  {
    PlainLikeByte(RS, s, [Percent]);
    if s != [] {
      PlainPercentMatchesAll(s[1..]);
    }
  }

  lemma {:induction false} JoinClean(parts: seq<seq<Byte>>)
    requires forall i | 0 <= i < |parts| :: Backslash !in parts[i]
    ensures Backslash !in Join(parts)
  {
    if |parts| > 1 {
      JoinClean(parts[1..]);
    }
  }

  lemma EncHasNoBackslash(segments: seq<seq<Byte>>)
    ensures Backslash !in Enc(segments)
  {
    forall i | 0 <= i < |segments| ensures Backslash !in EscapeAll(segments)[i] {
      EscapeClean(segments[i]);
    }
    JoinClean(EscapeAll(segments));
  }

  /** The SQLite store's queries name no escape character.  There the pattern of a prefix matches, up to
      the case of letters, what starts with the encoded prefix; but if that holds a metacharacter (an
      underscore, or any byte that is percent-encoded), it matches no encoded namespace. */
  lemma UnescapedPatternMeaning(p: seq<seq<Byte>>, ns: seq<seq<Byte>>)
    requires Nonempty(p) && Nonempty(ns)
    ensures PlainLike(Enc(ns), NamespacePrefixPattern(Enc(p))) <==>
            !HasMeta(Enc(p)) && LowerAll(Enc(p) + [RS]) <= LowerAll(Enc(ns))
  {
    var e, s := Enc(p), Enc(ns);
    assert NamespacePrefixPattern(e) == EscapeLike(e) + ([RS] + [Percent]);
    if HasMeta(e) {
      EncHasNoBackslash(ns);
      PlainLikeMeta(s, e, [RS] + [Percent]);
    } else {
      PlainLikeText(s, e, [RS] + [Percent]);
      LowerSeparator(e, s);
      if |e| <= |s| {
        PlainLikeSeparator(s[|e|..]);
      }
    }
  }

  lemma LowerSeparator(e: seq<Byte>, s: seq<Byte>)
    ensures LowerAll(e + [RS]) <= LowerAll(s) <==> LowerAll(e) <= LowerAll(s) && |s| > |e| && s[|e|] == RS
  {
    assert LowerAll(e + [RS]) == LowerAll(e) + [RS];
    if LowerAll(e) <= LowerAll(s) && |s| > |e| && s[|e|] == RS {
      assert LowerAll(s)[..|e| + 1] == LowerAll(s)[..|e|] + [LowerAll(s)[|e|]];
    }
    if LowerAll(e + [RS]) <= LowerAll(s) {
      assert LowerAll(s)[|e|] == LowerAll(e + [RS])[|e|] == RS;
      assert Lower(s[|e|]) == RS;
      assert LowerAll(s)[..|e|] == LowerAll(s)[..|e| + 1][..|e|];
    }
  }

  /** So with the equality, the SQLite store finds under ["a b"] only the namespace itself, not ["a b", "c"]. */
  lemma UnescapedPatternMisses()
    ensures var p, ns := [[0x61, 0x20, 0x62]], [[0x61, 0x20, 0x62], [0x63]];
            && Nonempty(p) && Nonempty(ns) && p < ns
            && Enc(ns) != Enc(p) && !PlainLike(Enc(ns), NamespacePrefixPattern(Enc(p)))
  {
    var p, ns: seq<seq<Byte>> := [[0x61, 0x20, 0x62]], [[0x61, 0x20, 0x62], [0x63]];
    assert p == ns[..1];
    EncodingInjective(ns, p);
    UnescapedPatternMeaning(p, ns);
    assert PathEscape(p[0]) == EscapeByte(0x61) + PathEscape(p[0][1..]);
    assert PathEscape(p[0][1..]) == EscapeByte(0x20) + PathEscape(p[0][2..]);
    assert PathEscape(p[0])[1] == Percent;
    assert Percent in Enc(p);
  }

  // ---- When the SQLite store finds what it should --------------------------------------------------------

  predicate IsLetter(c: Byte) {
    0x41 <= c <= 0x5A || 0x61 <= c <= 0x7A
  }

  ghost predicate NoLetter(s: seq<Byte>) {
    forall i | 0 <= i < |s| :: !IsLetter(s[i])
  }

  /** The letter in the other case. */
  function Swap(c: Byte): Byte {
    if 0x41 <= c <= 0x5A then c + 0x20 else if 0x61 <= c <= 0x7A then c - 0x20 else c
  }

  function SwapAll(s: seq<Byte>): (r: seq<Byte>)
    ensures |r| == |s|
  {
    seq(|s|, i requires 0 <= i < |s| => Swap(s[i]))
  }

  function SwapParts(parts: seq<seq<Byte>>): (r: seq<seq<Byte>>)
    ensures |r| == |parts|
  {
    seq(|parts|, i requires 0 <= i < |parts| => SwapAll(parts[i]))
  }

  lemma LowerJoin(a: seq<Byte>, b: seq<Byte>)
    ensures LowerAll(a + b) == LowerAll(a) + LowerAll(b)
  {
  }

  lemma PrefixMatches(p: seq<seq<Byte>>, ns: seq<seq<Byte>>)
    requires Nonempty(p) && Nonempty(ns) && p < ns && !HasMeta(Enc(p))
    ensures PlainLike(Enc(ns), NamespacePrefixPattern(Enc(p)))
  {
    UnescapedPatternMeaning(p, ns);
    EncodedPrefix(p, ns);
    var e, s := Enc(p) + [RS], Enc(ns);
    LowerJoin(e, s[|e|..]);
    assert s == e + s[|e|..];
  }

  lemma Child(p: seq<seq<Byte>>)
    requires Nonempty(p)
    ensures Nonempty(p + [[0x61]]) && p < p + [[0x61]]
  {
  }

  /** The pattern finds every namespace under the prefix exactly if the encoded prefix holds no
      metacharacter. */
  lemma UnescapedComplete(p: seq<seq<Byte>>)
    requires Nonempty(p)
    ensures (forall ns | Nonempty(ns) && p < ns :: PlainLike(Enc(ns), NamespacePrefixPattern(Enc(p)))) <==> !HasMeta(Enc(p))
  {
    if !HasMeta(Enc(p)) {
      forall ns | Nonempty(ns) && p < ns ensures PlainLike(Enc(ns), NamespacePrefixPattern(Enc(p))) {
        PrefixMatches(p, ns);
      }
    } else {
      Child(p);
      UnescapedPatternMeaning(p, p + [[0x61]]);
    }
  }

  lemma {:induction false} PlainEscape(s: seq<Byte>)
    requires forall i | 0 <= i < |s| :: Plain(s[i])
    ensures PathEscape(s) == s
  {
    if s != [] {
      PlainEscape(s[1..]);
      assert [s[0]] + s[1..] == s;
    }
  }

  lemma {:induction false} NoPercentPlain(s: seq<Byte>)
    requires Percent !in PathEscape(s)
    ensures forall i | 0 <= i < |s| :: Plain(s[i])
  {
    if s != [] {
      NoPercentPlain(s[1..]);
      assert Percent !in EscapeByte(s[0]);
      forall i | 0 < i < |s| ensures Plain(s[i]) {
        assert s[i] == s[1..][i - 1];
      }
    }
  }

  lemma {:induction false} JoinHolds(parts: seq<seq<Byte>>, i: nat, c: Byte)
    requires i < |parts| && c in parts[i]
    ensures c in Join(parts)
  {
    if i > 0 {
      JoinHolds(parts[1..], i - 1, c);
    }
  }

  /** Without a percent sign, the segments are stored as they are. */
  lemma PlainSegments(p: seq<seq<Byte>>)
    requires Percent !in Enc(p)
    ensures EscapeAll(p) == p && forall k, i | 0 <= k < |p| && 0 <= i < |p[k]| :: Plain(p[k][i])
  {
    forall k | 0 <= k < |p| ensures EscapeAll(p)[k] == p[k] && forall i | 0 <= i < |p[k]| :: Plain(p[k][i]) {
      if Percent in EscapeAll(p)[k] {
        JoinHolds(EscapeAll(p), k, Percent);
      }
      NoPercentPlain(p[k]);
      PlainEscape(p[k]);
    }
  }

  lemma SwappedSegments(p: seq<seq<Byte>>)
    requires Nonempty(p) && forall k, i | 0 <= k < |p| && 0 <= i < |p[k]| :: Plain(p[k][i])
    ensures EscapeAll(SwapParts(p)) == SwapParts(p) && Nonempty(SwapParts(p))
  {
    var q := SwapParts(p);
    forall k | 0 <= k < |q| ensures EscapeAll(q)[k] == q[k] && q[k] != [] {
      forall i | 0 <= i < |q[k]| ensures Plain(q[k][i]) {
        assert Plain(p[k][i]);
      }
      PlainEscape(q[k]);
    }
  }

  lemma {:induction false} JoinSwapped(parts: seq<seq<Byte>>)
    ensures Join(SwapParts(parts)) == SwapAll(Join(parts))
  {
    if |parts| > 1 {
      JoinSwapped(parts[1..]);
      assert SwapParts(parts)[1..] == SwapParts(parts[1..]);
      assert SwapAll(parts[0] + [RS] + Join(parts[1..])) == SwapAll(parts[0]) + [RS] + SwapAll(Join(parts[1..]));
    }
  }

  lemma LowerSwapped(s: seq<Byte>)
    ensures LowerAll(SwapAll(s)) == LowerAll(s)
    ensures SwapAll(s) == s ==> NoLetter(s)
  {
    if SwapAll(s) == s {
      forall i | 0 <= i < |s| ensures !IsLetter(s[i]) {
        assert SwapAll(s)[i] == Swap(s[i]);
      }
    }
  }

  lemma OtherCase(p: seq<seq<Byte>>)
    requires Nonempty(p) && !HasMeta(Enc(p))
    ensures Nonempty(SwapParts(p)) && Enc(SwapParts(p)) == SwapAll(Enc(p))
  {
    PlainSegments(p);
    SwappedSegments(p);
    JoinSwapped(p);
  }

  lemma LowerStart(e: seq<Byte>, f: seq<Byte>, s: seq<Byte>)
    requires LowerAll(e) == LowerAll(f) && f + [RS] <= s
    ensures LowerAll(e + [RS]) <= LowerAll(s)
  {
    assert s == f + [RS] + s[|f| + 1..];
    LowerJoin(f + [RS], s[|f| + 1..]);
    LowerJoin(f, [RS]);
    LowerJoin(e, [RS]);
  }

  /** Under the prefix in the other case there is a namespace that the pattern matches too. */
  lemma OtherCaseMatches(p: seq<seq<Byte>>)
    requires Nonempty(p) && !HasMeta(Enc(p))
    ensures var ns := SwapParts(p) + [[0x61]];
            && Nonempty(ns) && PlainLike(Enc(ns), NamespacePrefixPattern(Enc(p)))
            && (p < ns ==> NoLetter(Enc(p)))
  {
    var q := SwapParts(p);
    var ns := q + [[0x61]];
    OtherCase(p);
    LowerSwapped(Enc(p));
    Child(q);
    EncodedPrefix(q, ns);
    UnescapedPatternMeaning(p, ns);
    hide *;
    assert StrictlyExtends(ns, q) by { Extends(ns, q); }
    LowerStart(Enc(p), Enc(q), Enc(ns));
    assert |q| == |p|;
    assert p < ns ==> p == ns[..|p|] && ns[..|q|] == q;
  }

  lemma Extends(ns: seq<seq<Byte>>, p: seq<seq<Byte>>)
    requires p < ns
    ensures StrictlyExtends(ns, p)
  {
  }

  lemma LowerNoLetter(e: seq<Byte>, s: seq<Byte>)
    requires NoLetter(e) && LowerAll(e) <= LowerAll(s)
    ensures e <= s
  {
    forall i | 0 <= i < |e| ensures e[i] == s[i] {
      assert LowerAll(e)[i] == LowerAll(s)[i];
    }
  }

  lemma NoLetterMatches(p: seq<seq<Byte>>, ns: seq<seq<Byte>>)
    requires Nonempty(p) && Nonempty(ns) && NoLetter(Enc(p))
    ensures PlainLike(Enc(ns), NamespacePrefixPattern(Enc(p))) ==> p < ns
  {
    UnescapedPatternMeaning(p, ns);
    EncodedPrefix(p, ns);
    if LowerAll(Enc(p) + [RS]) <= LowerAll(Enc(ns)) {
      LowerNoLetter(Enc(p) + [RS], Enc(ns));
    }
  }

  /** The pattern finds exactly the namespaces under the prefix, if the encoded prefix holds neither a
      metacharacter nor a letter, and only then. */
  lemma UnescapedExact(p: seq<seq<Byte>>)
    requires Nonempty(p)
    ensures (forall ns | Nonempty(ns) :: PlainLike(Enc(ns), NamespacePrefixPattern(Enc(p))) <==> p < ns) <==>
            !HasMeta(Enc(p)) && NoLetter(Enc(p))
  {
    UnescapedComplete(p);
    if !HasMeta(Enc(p)) && NoLetter(Enc(p)) {
      forall ns | Nonempty(ns) ensures PlainLike(Enc(ns), NamespacePrefixPattern(Enc(p))) <==> p < ns {
        NoLetterMatches(p, ns);
      }
    } else if !HasMeta(Enc(p)) {
      OtherCaseMatches(p);
    }
  }

  /** With the equality of the query, the search is exact under the same condition. */
  lemma UnescapedSearchExact(p: seq<seq<Byte>>)
    requires Nonempty(p)
    ensures (forall ns | Nonempty(ns) :: Enc(ns) == Enc(p) || PlainLike(Enc(ns), NamespacePrefixPattern(Enc(p))) <==> p <= ns) <==>
            !HasMeta(Enc(p)) && NoLetter(Enc(p))
  {
    UnescapedExact(p);
    UnescapedPatternMeaning(p, p);
    forall ns | Nonempty(ns) ensures Enc(ns) == Enc(p) <==> ns == p {
      EncodingInjective(ns, p);
    }
    forall ns | Nonempty(ns)
      ensures (Enc(ns) == Enc(p) || PlainLike(Enc(ns), NamespacePrefixPattern(Enc(p))) <==> p <= ns) <==>
              (PlainLike(Enc(ns), NamespacePrefixPattern(Enc(p))) <==> p < ns)
    {
      hide *;
      assert p <= ns <==> p == ns || p < ns;
    }
  }

  /** Under ["a"] the SQLite store also finds ["A", "c"]. */
  lemma UnescapedPatternOvermatches()
    ensures var p, ns := [[0x61]], [[0x41], [0x63]];
            Nonempty(p) && Nonempty(ns) && !(p <= ns) && PlainLike(Enc(ns), NamespacePrefixPattern(Enc(p)))
  {
    var p: seq<seq<Byte>>, ns: seq<seq<Byte>> := [[0x61]], [[0x41], [0x63]];
    PlainEscape([0x61]);
    PlainEscape([0x41]);
    PlainEscape([0x63]);
    assert EscapeAll(p) == p && EscapeAll(ns) == ns;
    assert Enc(p) == [0x61];
    assert ns[1..] == [[0x63]];
    assert Enc(ns) == [0x41] + [RS] + [0x63];
    UnescapedPatternMeaning(p, ns);
    assert LowerAll([0x61] + [RS]) == [0x61, RS];
    assert LowerAll([0x41] + [RS] + [0x63]) == [0x61, RS, 0x63];
    assert ns[0] != p[0];
  }
}
