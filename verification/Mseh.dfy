/** The MSEH envelope header and the associated data of encrypted fields
    (internal/dataencryption/mseh.go:21-161).

    A uint32 is a nat below 2^32.  Setting the top bit of a byte below 128 adds 128, and joining bits
    that do not overlap adds them.  Marshalling is a parameter. */
module Mseh {
  import opened Wrappers
  import opened Bytes

  const Word: nat := 0x1_0000_0000
  const MaxProtoLen: nat := 4096
  const Magic: seq<Byte> := [0x4D, 0x53, 0x45, 0x48]

  datatype Header = Header(version: nat, providerID: seq<Byte>, nonce: seq<Byte>)

  // ---- Varints ---------------------------------------------------------------------------------------

  /** A byte of a varint that is not its last: byte(v) | 0x80. */
  function More(v: nat): Byte {
    v % 0x80 + 0x80
  }

  /** Seven bits a byte, lowest first; all but the last have their top bit set. */
  function Varint(v: nat): (r: seq<Byte>)
    ensures |r| >= 1
  {
    if v < 0x80 then [v] else [More(v)] + Varint(v / 0x80)
  }

  method VarintLen(v: nat) returns (n: nat)
    requires v < Word
    ensures n == |Varint(v)| <= 5
  {
    n := 1;
    var rest: nat := v;
    VarintLength(v, 5);
    while rest >= 0x80
      invariant |Varint(v)| == n - 1 + |Varint(rest)|
    {
      rest := rest / 0x80;
      n := n + 1;
    }
  }

  function Base(i: nat): (r: nat)
    ensures r >= 1
  {
    if i == 0 then 1 else 0x80 * Base(i - 1)
  }

  /** At most one byte for every seven bits. */
  lemma {:induction false} VarintLength(v: nat, n: nat)
    requires n >= 1 && v < Base(n)
    ensures |Varint(v)| <= n
  {
    assert Base(1) == 0x80;
    if v >= 0x80 {
      VarintLength(v / 0x80, n - 1);
    }
  }

  /** `was`, overwritten with `written` from `at`. */
  function Patched(was: seq<Byte>, at: nat, written: seq<Byte>): (r: seq<Byte>)
    requires at + |written| <= |was|
    ensures |r| == |was|
  {
    was[..at] + written + was[at + |written|..]
  }

  lemma PatchNext(was: seq<Byte>, at: nat, written: seq<Byte>, x: Byte)
    requires at + |written| < |was|
    ensures Patched(was, at, written)[at + |written| := x] == Patched(was, at, written + [x])
  {
  }

  lemma PatchNone(was: seq<Byte>, at: nat)
    requires at <= |was|
    ensures Patched(was, at, []) == was
  {
  }

  lemma VarintUnfolds(v: nat)
    ensures v >= 0x80 ==> Varint(v) == [More(v)] + Varint(v / 0x80)
    ensures v < 0x80 ==> Varint(v) == [v]
  {
  }

  /** Writes the varint at `at`. */
  method PutVarint32(b: array<Byte>, at: nat, v: nat) returns (n: nat)
    requires v < Word && at + |Varint(v)| <= b.Length
    modifies b
    ensures n == |Varint(v)|
    ensures b[..] == Patched(old(b[..]), at, Varint(v))
  {
    n := 0;
    var rest: nat := v;
    ghost var written: seq<Byte>, was: seq<Byte> := [], b[..];
    PatchNone(was, at);
    hide Varint, Patched, More;
    while rest >= 0x80
      invariant |written| == n && written + Varint(rest) == Varint(v)
      invariant b[..] == Patched(was, at, written)
    {
      VarintUnfolds(rest);
      var low: Byte := More(rest);
      PatchNext(was, at, written, low);
      b[at + n] := low;
      written := written + [low];
      rest := rest / 0x80;
      n := n + 1;
    }
    VarintUnfolds(rest);
    PatchNext(was, at, written, rest);
    b[at + n] := rest;
    n := n + 1;
  }

  datatype Read<T> = Got(value: T, rest: seq<Byte>) | Short | Overflow

  /** What the `i`th byte of a varint adds, as a uint32. */
  function Shifted(x: nat, i: nat): nat {
    x * Base(i) % Word
  }

  function ReadFrom(s: seq<Byte>, i: nat, v: nat): Read<nat>
    decreases 5 - i
  {
    if i >= 5 then Overflow
    else if s == [] then Short
    else
      var v := v + Shifted(s[0] % 0x80, i);
      if s[0] < 0x80 then Got(v, s[1..]) else ReadFrom(s[1..], i + 1, v)
  }

  class Reader {
    var rest: seq<Byte>

    constructor (s: seq<Byte>)
      ensures rest == s
    {
      rest := s;
    }

    /** Reads exactly `n` bytes, or fails. */
    method ReadFull(n: nat) returns (r: Option<seq<Byte>>)
      modifies this
      ensures |old(rest)| >= n ==> r == Some(old(rest)[..n]) && rest == old(rest)[n..]
      ensures |old(rest)| < n ==> r == None && rest == []
    {
      if |rest| >= n {
        r := Some(rest[..n]);
        rest := rest[n..];
      } else {
        r := None;
        rest := [];
      }
    }
  }

  method ReadVarint32(r: Reader) returns (v: Read<nat>)
    modifies r
    ensures v == ReadFrom(old(r.rest), 0, 0)
    ensures v.Got? ==> v.rest == r.rest
  {
    var sum: nat := 0;
    for i := 0 to 5
      invariant ReadFrom(r.rest, i, sum) == ReadFrom(old(r.rest), 0, 0)
    {
      var b := r.ReadFull(1);
      if b.None? {
        return Short;
      }
      sum := sum + Shifted(b.value[0] % 0x80, i);
      if b.value[0] < 0x80 {
        return Got(sum, r.rest);
      }
    }
    return Overflow;
  }

  function Scaled(v: nat, i: nat): nat {
    v * Base(i)
  }

  lemma ScaledStep(v: nat, i: nat)
    ensures Scaled(v, i) == Scaled(v / 0x80, i + 1) + Scaled(v % 0x80, i)
  {
    var q, m, b := v / 0x80, v % 0x80, Base(i);
    assert Base(i + 1) == 0x80 * b;
    assert v == 0x80 * q + m;
    assert v * b == 0x80 * q * b + m * b;
    assert q * (0x80 * b) == 0x80 * q * b;
  }

  lemma ShiftedSmall(x: nat, i: nat)
    requires Scaled(x, i) < Word
    ensures Shifted(x, i) == Scaled(x, i)
  {
  }

  lemma ReadNext(b: Byte, s: seq<Byte>, i: nat, sum: nat)
    requires i < 5
    ensures ReadFrom([b] + s, i, sum) ==
            if b < 0x80 then Got(sum + Shifted(b % 0x80, i), s) else ReadFrom(s, i + 1, sum + Shifted(b % 0x80, i))
  {
    hide Shifted;
    assert ([b] + s)[1..] == s;
  }

  lemma {:induction false} ReadVarintFrom(v: nat, rest: seq<Byte>, i: nat, sum: nat)
    requires Scaled(v, i) < Word && i + |Varint(v)| <= 5
    ensures ReadFrom(Varint(v) + rest, i, sum) == Got(sum + Scaled(v, i), rest)
    decreases 5 - i
  {
    VarintUnfolds(v);
    hide Base, Varint, ReadFrom, Shifted, Scaled;
    ScaledStep(v, i);
    if v < 0x80 {
      ShiftedSmall(v, i);
      ReadNext(v, rest, i, sum);
    } else {
      var q: nat, m: nat := v / 0x80, v % 0x80;
      ShiftedSmall(m, i);
      ReadNext(m + 0x80, Varint(q) + rest, i, sum);
      assert Varint(v) + rest == [m + 0x80] + (Varint(q) + rest);
      ReadVarintFrom(q, rest, i + 1, sum + Scaled(m, i));
    }
  }

  /** The reader inverts the writer on every uint32, and stops behind it. */
  lemma VarintRoundTrip(v: nat, rest: seq<Byte>)
    requires v < Word
    ensures 1 <= |Varint(v)| <= 5
    ensures ReadFrom(Varint(v) + rest, 0, 0) == Got(v, rest)
  {
    assert Base(5) == 0x80 * 0x80 * 0x80 * 0x80 * 0x80;
    VarintLength(v, 5);
    ReadVarintFrom(v, rest, 0, 0);
  }

  /** The number that the first `n` bytes spell, seven bits each. */
  function Spelled(s: seq<Byte>, n: nat): nat
    requires n <= |s|
  {
    if n == 0 then 0 else Spelled(s, n - 1) + s[n - 1] % 0x80 * Base(n - 1)
  }

  /** The first `n` bytes are a varint: only the last has its top bit clear. */
  ghost predicate Terminated(s: seq<Byte>, n: nat) {
    1 <= n <= |s| && s[n - 1] < 0x80 && forall k | 0 <= k < n - 1 :: s[k] >= 0x80
  }

  lemma Multiple(x: nat, y: nat, b: nat)
    requires x <= y
    ensures x * b <= y * b
  {
  }

  lemma {:induction false} SpelledBound(s: seq<Byte>, n: nat)
    requires n <= |s|
    ensures Spelled(s, n) < Base(n)
  {
    if n > 0 {
      SpelledBound(s, n - 1);
      Multiple(s[n - 1] % 0x80, 0x7F, Base(n - 1));
      assert Base(n) == 0x80 * Base(n - 1);
    }
  }

  lemma BaseOf(i: nat)
    requires i <= 5
    ensures Base(i) == [1, 0x80, 0x4000, 0x20_0000, 0x1000_0000, 0x8_0000_0000][i]
  {
    assert Base(1) == 0x80 && Base(2) == 0x4000 && Base(3) == 0x20_0000 && Base(4) == 0x1000_0000;
  }

  lemma ShiftedAdds(s: seq<Byte>, i: nat)
    requires i < 5 && i < |s|
    ensures Spelled(s, i) + Shifted(s[i] % 0x80, i) == Spelled(s, i + 1) % Word
  {
    SpelledBound(s, i);
    BaseOf(i);
    var x: nat := s[i] % 0x80;
    if i < 4 {
      assert x * Base(i) + Spelled(s, i) < Word;
    } else {
      assert Word == 16 * Base(4);
    }
  }

  /** The first `n` bytes all have their top bit set. */
  ghost predicate Continued(s: seq<Byte>, n: nat) {
    n <= |s| && forall k | 0 <= k < n :: s[k] >= 0x80
  }

  lemma SpelledSmall(s: seq<Byte>, n: nat)
    requires n <= 4 && n <= |s|
    ensures Spelled(s, n) % Word == Spelled(s, n)
  {
    SpelledBound(s, n);
    BaseOf(n);
  }

  lemma {:induction false} ReadFromStops(s: seq<Byte>, i: nat, n: nat)
    requires Terminated(s, n) && i < n <= 5
    ensures ReadFrom(s[i..], i, Spelled(s, i)) == Got(Spelled(s, n) % Word, s[n..])
    decreases n - i
  {
    hide ReadFrom, Spelled, Shifted;
    ShiftedAdds(s, i);
    ReadNext(s[i], s[i + 1..], i, Spelled(s, i));
    assert s[i..] == [s[i]] + s[i + 1..];
    if i + 1 < n {
      SpelledSmall(s, i + 1);
      ReadFromStops(s, i + 1, n);
    }
  }

  lemma {:induction false} ReadFromRuns(s: seq<Byte>, i: nat)
    requires i <= 5 && i <= |s| && Continued(s, if |s| < 5 then |s| else 5)
    ensures ReadFrom(s[i..], i, Spelled(s, i)) == if |s| < 5 then Short else Overflow
    decreases 5 - i
  {
    if i < 5 && i < |s| {
      hide ReadFrom, Spelled, Shifted;
      ShiftedAdds(s, i);
      ReadNext(s[i], s[i + 1..], i, Spelled(s, i));
      assert s[i..] == [s[i]] + s[i + 1..];
      if i < 4 {
        SpelledSmall(s, i + 1);
        ReadFromRuns(s, i + 1);
      } else {
        ReadFive(s[i + 1..], Spelled(s, i) + Shifted(s[i] % 0x80, i));
      }
    }
  }

  lemma ReadFive(s: seq<Byte>, v: nat)
    ensures ReadFrom(s, 5, v) == Overflow
  {
  }

  lemma {:induction false} NoStop(s: seq<Byte>, m: nat)
    requires m <= |s| && m <= 5 && forall n: nat | n <= 5 :: !Terminated(s, n)
    ensures Continued(s, m)
  {
    if m > 0 {
      NoStop(s, m - 1);
      assert !Terminated(s, m);
    }
  }

  /** The reader accepts exactly the byte strings whose first five bytes hold one with its top bit clear;
      its result is what the bytes up to there spell, as a uint32: bits beyond the 32nd are dropped. */
  lemma ReadVarintMeaning(s: seq<Byte>)
    ensures var r := ReadFrom(s, 0, 0);
            && (r.Got? <==> exists n: nat :: n <= 5 && Terminated(s, n))
            && (forall n: nat :: n <= 5 && Terminated(s, n) ==> r == Got(Spelled(s, n) % Word, s[n..]))
            && (r == Short <==> |s| < 5 && !exists n: nat :: Terminated(s, n))
  {
    assert s[0..] == s && Spelled(s, 0) == 0;
    hide ReadFrom, Spelled;
    forall n: nat | n <= 5 && Terminated(s, n) ensures ReadFrom(s, 0, 0) == Got(Spelled(s, n) % Word, s[n..]) {
      ReadFromStops(s, 0, n);
    }
    if forall n: nat | n <= 5 :: !Terminated(s, n) {
      NoStop(s, if |s| < 5 then |s| else 5);
      ReadFromRuns(s, 0);
    }
  }

  // ---- The header ------------------------------------------------------------------------------------------

  function Frame(payload: seq<Byte>): seq<Byte> {
    Magic + Varint(|payload| % Word) + payload
  }

  method Copy(buf: array<Byte>, at: nat, s: seq<Byte>)
    requires at + |s| <= buf.Length
    modifies buf
    ensures buf[..] == Patched(old(buf[..]), at, s)
  {
    ghost var was: seq<Byte> := buf[..];
    PatchNone(was, at);
    hide Patched;
    for i := 0 to |s|
      invariant buf[..] == Patched(was, at, s[..i])
    {
      PatchNext(was, at, s[..i], s[i]);
      assert s[..i] + [s[i]] == s[..i + 1];
      buf[at + i] := s[i];
    }
    assert s[..|s|] == s;
  }

  lemma PatchedFrame(was: seq<Byte>, v: seq<Byte>, payload: seq<Byte>)
    requires |was| == 4 + |v| + |payload|
    ensures Patched(Patched(Patched(was, 0, Magic), 4, v), 4 + |v|, payload) == Magic + v + payload
  {
    var one := Patched(was, 0, Magic);
    assert one[..4] == Magic;
    var two := Patched(one, 4, v);
    assert two[..4 + |v|] == Magic + v;
  }

  method EncodeHeader(h: Header, marshal: Header -> Option<seq<Byte>>) returns (r: Option<seq<Byte>>)
    ensures r == if marshal(h).None? then None else Some(Frame(marshal(h).value))
  {
    var encoded := marshal(h);
    if encoded.None? {
      return None;
    }
    var protoBytes := encoded.value;
    var v: nat := |protoBytes| % Word;
    var length := VarintLen(v);
    var buf := new Byte[4 + length + |protoBytes|];
    PatchedFrame(buf[..], Varint(v), protoBytes);
    hide Patched, Varint;
    Copy(buf, 0, Magic);
    var n := PutVarint32(buf, 4, v);
    Copy(buf, 4 + n, protoBytes);
    return Some(buf[..]);
  }

  datatype Failure = NoLength | LengthOverflow | TooLong | Truncated | Undecodable

  datatype FrameRead = NoMagic | Failed(why: Failure) | Framed(payload: seq<Byte>, rest: seq<Byte>)

  datatype HeaderRead = Absent | Broken(why: Failure) | Found(header: Header)

  predicate HasMagic(s: seq<Byte>) {
    |s| >= 4 && s[0] == Magic[0] && s[1] == Magic[1] && s[2] == Magic[2] && s[3] == Magic[3]
  }

  lemma MagicFirst(s: seq<Byte>)
    ensures HasMagic(s) <==> |s| >= 4 && s[..4] == Magic
  {
    if |s| >= 4 {
      assert s[..4] == [s[0], s[1], s[2], s[3]];
    }
  }

  function ReadFrame(s: seq<Byte>): FrameRead {
    if !HasMagic(s) then NoMagic
    else
      match ReadFrom(s[4..], 0, 0)
      case Short => Failed(NoLength)
      case Overflow => Failed(LengthOverflow)
      case Got(n, rest) =>
        if n > MaxProtoLen then Failed(TooLong)
        else if |rest| < n then Failed(Truncated)
        else Framed(rest[..n], rest[n..])
  }

  function HeaderOf(f: FrameRead, unmarshal: seq<Byte> -> Option<Header>): HeaderRead {
    match f
    case NoMagic => Absent
    case Failed(why) => Broken(why)
    case Framed(payload, _) =>
      match unmarshal(payload) {
        case None => Broken(Undecodable)
        case Some(h) => Found(h)
      }
  }

  method ReadHeader(r: Reader, unmarshal: seq<Byte> -> Option<Header>) returns (h: HeaderRead)
    modifies r
    ensures h == HeaderOf(ReadFrame(old(r.rest)), unmarshal)
    ensures h.Found? ==> ReadFrame(old(r.rest)).Framed? && r.rest == ReadFrame(old(r.rest)).rest
  {
    MagicFirst(r.rest);
    hide ReadFrom, HasMagic;
    var mgc := r.ReadFull(4);
    if mgc.None? {
      return Absent;
    }
    if mgc.value != Magic {
      return Absent;
    }
    var protoLen := ReadVarint32(r);
    if protoLen.Short? {
      return Broken(NoLength);
    }
    if protoLen.Overflow? {
      return Broken(LengthOverflow);
    }
    if protoLen.value > MaxProtoLen {
      return Broken(TooLong);
    }
    var protoBytes := r.ReadFull(protoLen.value);
    if protoBytes.None? {
      return Broken(Truncated);
    }
    var msg := unmarshal(protoBytes.value);
    if msg.None? {
      return Broken(Undecodable);
    }
    return Found(msg.value);
  }

  /** Without the magic there is no header; behind it, a header that can be decoded is found, and all else is reported. */
  lemma HeaderCases(s: seq<Byte>, unmarshal: seq<Byte> -> Option<Header>)
    ensures var h, magic := HeaderOf(ReadFrame(s), unmarshal), |s| >= 4 && s[..4] == [0x4D, 0x53, 0x45, 0x48];
            && (h == Absent <==> !magic)
            && (forall found :: h == Found(found) <==> ReadFrame(s).Framed? && unmarshal(ReadFrame(s).payload) == Some(found))
            && (forall why :: h == Broken(why) <==>
                  || ReadFrame(s) == Failed(why)
                  || (why == Undecodable && ReadFrame(s).Framed? && unmarshal(ReadFrame(s).payload) == None))
  {
    MagicFirst(s);
    hide HasMagic;
  }

  lemma FrameRest(a: seq<Byte>, b: seq<Byte>, c: seq<Byte>, d: seq<Byte>)
    ensures a + b + c + d == a + (b + (c + d))
    ensures (a + b + c + d)[..|a|] == a && (a + b + c + d)[|a|..] == b + (c + d)
  {
  }

  lemma FrameParts(payload: seq<Byte>, rest: seq<Byte>)
    ensures HasMagic(Frame(payload) + rest)
    ensures (Frame(payload) + rest)[4..] == Varint(|payload| % Word) + (payload + rest)
  {
    hide Varint, HasMagic;
    var v := Varint(|payload| % Word);
    FrameRest(Magic, v, payload, rest);
    assert Frame(payload) + rest == Magic + v + payload + rest;
    MagicFirst(Frame(payload) + rest);
  }

  /** For every payload and everything that may follow: reading the written frame gives it back and
      stops behind it, exactly if it is at most 4096 bytes long. */
  lemma FrameRoundTrip(payload: seq<Byte>, rest: seq<Byte>)
    ensures ReadFrame(Frame(payload) + rest) == Framed(payload, rest) <==> |payload| <= MaxProtoLen
    ensures MaxProtoLen < |payload| < Word ==> ReadFrame(Frame(payload) + rest) == Failed(TooLong)
  {
    var n: nat := |payload| % Word;
    FrameParts(payload, rest);
    VarintRoundTrip(n, payload + rest);
    hide ReadFrom, Varint, HasMagic, Frame;
    if |payload| <= MaxProtoLen {
      assert (payload + rest)[..n] == payload && (payload + rest)[n..] == rest;
    }
  }

  ghost predicate Inverse(marshal: Header -> Option<seq<Byte>>, unmarshal: seq<Byte> -> Option<Header>) {
    forall h :: marshal(h).Some? ==> unmarshal(marshal(h).value) == Some(h)
  }

  /** A header written and read is the same header, and exactly its bytes are consumed; one that
      marshals to more than 4096 bytes is written but cannot be read. */
  lemma HeaderRoundTrip(h: Header, rest: seq<Byte>, marshal: Header -> Option<seq<Byte>>, unmarshal: seq<Byte> -> Option<Header>)
    requires Inverse(marshal, unmarshal) && marshal(h).Some? && |marshal(h).value| < Word
    ensures var f := ReadFrame(Frame(marshal(h).value) + rest);
            && (f.Framed? && f.rest == rest && HeaderOf(f, unmarshal) == Found(h) <==> |marshal(h).value| <= MaxProtoLen)
            && (!(|marshal(h).value| <= MaxProtoLen) ==> HeaderOf(f, unmarshal) == Broken(TooLong))
  {
    FrameRoundTrip(marshal(h).value, rest);
  }

  /** What a frame that is read looks like: the magic, a varint of at most five bytes that spells the
      length, as a uint32, and the payload. */
  lemma ReadFrameMeaning(s: seq<Byte>)
    requires ReadFrame(s).Framed?
    ensures |s| >= 4 && s[..4] == Magic
    ensures exists n: nat :: FrameAfter(s[4..], n, ReadFrame(s).payload, ReadFrame(s).rest)
  {
    MagicFirst(s);
    var t := s[4..];
    var r := ReadFrom(t, 0, 0);
    var payload, rest := ReadFrame(s).payload, ReadFrame(s).rest;
    assert r.Got? && |payload| == r.value && r.rest == payload + rest;
    hide ReadFrame, ReadFrom, Spelled, Terminated, HasMagic;
    ReadVarintMeaning(t);
    var n: nat :| n <= 5 && Terminated(t, n);
    TerminatedBounds(t, n);
    assert FrameAfter(t, n, payload, rest);
  }

  /** The first five bytes of the length hold one with its top bit clear, and it spells `n` as a uint32. */
  ghost predicate Length(t: seq<Byte>, n: nat, rest: seq<Byte>) {
    exists k: nat :: k <= 5 && Terminated(t, k) && n == Spelled(t, k) % 0x1_0000_0000 && rest == t[k..]
  }

  /** Every outcome by the bytes that are read: no magic; no end of the length within five bytes, of which some are missing
      or none; a length above 4096; fewer bytes than it says; else the payload. */
  lemma ReadFrameCases(s: seq<Byte>)
    ensures var magic := |s| >= 4 && s[0] as char == 'M' && s[1] as char == 'S' && s[2] as char == 'E' && s[3] as char == 'H';
            var unended := magic && forall n: nat, rest :: !Length(s[4..], n, rest);
            && (ReadFrame(s) == NoMagic <==> !magic)
            && (ReadFrame(s) == Failed(NoLength) <==> unended && |s| < 9)
            && (ReadFrame(s) == Failed(LengthOverflow) <==> unended && |s| >= 9)
            && (magic ==> forall n: nat, rest | Length(s[4..], n, rest) ::
                  && (ReadFrame(s) == Failed(TooLong) <==> n > 4096)
                  && (ReadFrame(s) == Failed(Truncated) <==> |rest| < n <= 4096)
                  && (n <= 4096 && n <= |rest| ==> ReadFrame(s) == Framed(rest[..n], rest[n..])))
  {
    if HasMagic(s) {
      var t := s[4..];
      ReadVarintMeaning(t);
      hide ReadFrom, Spelled, Terminated;
      forall n: nat, rest ensures Length(t, n, rest) ==> ReadFrom(t, 0, 0) == Got(n, rest) {}
      if ReadFrom(t, 0, 0).Got? {
        var k: nat :| k <= 5 && Terminated(t, k);
        assert Length(t, Spelled(t, k) % 0x1_0000_0000, t[k..]);
      }
    }
  }

  lemma TerminatedBounds(s: seq<Byte>, n: nat)
    requires Terminated(s, n)
    ensures 1 <= n <= |s|
  {
  }

  ghost predicate FrameAfter(t: seq<Byte>, n: nat, payload: seq<Byte>, rest: seq<Byte>) {
    && 1 <= n <= 5 && n <= |t| && Terminated(t, n)
    && |payload| == Spelled(t, n) % Word && t[n..] == payload + rest
  }

  // ---- Associated data -----------------------------------------------------------------------------------

  function BigEndian(n: nat): (r: seq<Byte>)
    requires n < Word
    ensures |r| == 4
  {
    [n / 0x100_0000, n / 0x1_0000 % 0x100, n / 0x100 % 0x100, n % 0x100]
  }

  function WordOf(b: seq<Byte>): nat
    requires |b| == 4
  {
    var b0: nat, b1: nat, b2: nat, b3: nat := b[0], b[1], b[2], b[3];
    b0 * 0x100_0000 + b1 * 0x1_0000 + b2 * 0x100 + b3
  }

  lemma BigEndianValue(n: nat)
    requires n < Word
    ensures n == WordOf(BigEndian(n))
  {
    var q := n / 0x100;
    assert n == q * 0x100 + n % 0x100;
    assert q == n / 0x1_0000 * 0x100 + q % 0x100;
    assert n / 0x1_0000 == n / 0x100_0000 * 0x100 + n / 0x1_0000 % 0x100;
  }

  function Framed4(value: seq<Byte>): seq<Byte> {
    BigEndian(|value| % Word) + value
  }

  method AppendFrame(out0: seq<Byte>, value: seq<Byte>) returns (out: seq<Byte>)
    ensures out == out0 + Framed4(value)
  {
    var n: nat := |value| % Word;
    var lenBuf: array<Byte> := new Byte[4];
    lenBuf[0], lenBuf[1], lenBuf[2], lenBuf[3] := n / 0x100_0000, n / 0x1_0000 % 0x100, n / 0x100 % 0x100, n % 0x100;
    assert lenBuf[..] == BigEndian(n);
    out := out0 + lenBuf[..];
    out := out + value;
  }

  /** "memory-service/mseh/v4/field". */
  const FieldLabel: seq<Byte> := [0x6D, 0x65, 0x6D, 0x6F, 0x72, 0x79, 0x2D, 0x73, 0x65, 0x72, 0x76, 0x69, 0x63, 0x65, 0x2F,
                                  0x6D, 0x73, 0x65, 0x68, 0x2F, 0x76, 0x34, 0x2F, 0x66, 0x69, 0x65, 0x6C, 0x64]

  function AAD(headerPrefix: seq<Byte>, domain: seq<Byte>, identity: seq<Byte>): seq<Byte> {
    Framed4(FieldLabel) + Framed4(headerPrefix) + Framed4(domain) + Framed4(identity)
  }

  method FieldAAD(headerPrefix: seq<Byte>, domain: seq<Byte>, identity: seq<Byte>) returns (out: seq<Byte>)
    ensures out == AAD(headerPrefix, domain, identity)
  {
    out := AppendFrame([], FieldLabel);
    out := AppendFrame(out, headerPrefix);
    out := AppendFrame(out, domain);
    out := AppendFrame(out, identity);
  }

  lemma BigEndianInjective(m: nat, n: nat)
    requires m < Word && n < Word && BigEndian(m) == BigEndian(n)
    ensures m == n
  {
    BigEndianValue(m);
    BigEndianValue(n);
  }

  lemma FrameStart(a: seq<Byte>, s: seq<Byte>)
    requires |a| < Word
    ensures var x := Framed4(a) + s;
            |x| >= 4 + |a| && x[..4] == BigEndian(|a|) && x[4..4 + |a|] == a && x[4 + |a|..] == s
  {
    hide BigEndian;
    assert |a| % Word == |a|;
  }

  /** A frame tells where it ends. */
  lemma FrameSplits(a: seq<Byte>, s: seq<Byte>, b: seq<Byte>, t: seq<Byte>)
    requires |a| < Word && |b| < Word && Framed4(a) + s == Framed4(b) + t
    ensures a == b && s == t
  {
    hide BigEndian, Framed4;
    FrameStart(a, s);
    FrameStart(b, t);
    BigEndianInjective(|a|, |b|);
  }

  /** Different fields have different associated data, as long as no part reaches 2^32 bytes. */
  lemma AADInjective(p: seq<Byte>, d: seq<Byte>, i: seq<Byte>, p': seq<Byte>, d': seq<Byte>, i': seq<Byte>)
    requires |p| < Word && |d| < Word && |i| < Word && |p'| < Word && |d'| < Word && |i'| < Word
    ensures AAD(p, d, i) == AAD(p', d', i') <==> p == p' && d == d' && i == i'
  {
    if AAD(p, d, i) == AAD(p', d', i') {
      AADGroups(p, d, i);
      AADGroups(p', d', i');
      hide AAD, Framed4;
      FrameSplits(p, Framed4(d) + (Framed4(i) + []), p', Framed4(d') + (Framed4(i') + []));
      FrameSplits(d, Framed4(i) + [], d', Framed4(i') + []);
      FrameSplits(i, [], i', []);
    }
  }

  lemma AADGroups(p: seq<Byte>, d: seq<Byte>, i: seq<Byte>)
    ensures var l := |Framed4(FieldLabel)|;
            l <= |AAD(p, d, i)| && AAD(p, d, i)[l..] == Framed4(p) + (Framed4(d) + (Framed4(i) + []))
  {
    hide Framed4;
  }

  ghost predicate FrameOf(x: seq<Byte>, part: seq<Byte>, rest: seq<Byte>) {
    && |x| == 4 + |part| + |rest| && part == x[4..4 + |part|] && rest == x[4 + |part|..]
    && (x[0] as int) * 0x100_0000 + (x[1] as int) * 0x1_0000 + (x[2] as int) * 0x100 + x[3] as int == |part|
  }

  /** Frames one after the other. */
  ghost predicate FramesOf(x: seq<Byte>, parts: seq<seq<Byte>>)
    decreases |parts|
  {
    if parts == [] then x == []
    else |x| >= 4 + |parts[0]| && FrameOf(x, parts[0], x[4 + |parts[0]|..]) && FramesOf(x[4 + |parts[0]|..], parts[1..])
  }

  lemma FramesNext(part: seq<Byte>, x: seq<Byte>, parts: seq<seq<Byte>>)
    requires |part| < Word && FramesOf(x, parts)
    ensures FramesOf(Framed4(part) + x, [part] + parts)
  {
    FramedIs(part, x);
    hide Framed4;
    assert ([part] + parts)[0] == part && ([part] + parts)[1..] == parts;
    assert (Framed4(part) + x)[4 + |part|..] == x;
  }

  /** The layout: label, header, domain and identity in this order, each behind its length of four bytes, highest first. */
  lemma AADLayout(headerPrefix: seq<Byte>, domain: seq<Byte>, identity: seq<Byte>)
    requires |headerPrefix| < Word && |domain| < Word && |identity| < Word
    ensures FramesOf(AAD(headerPrefix, domain, identity), [FieldLabel, headerPrefix, domain, identity])
  {
    hide FramesOf, Framed4;
    NoFrames();
    FramesNext(identity, [], []);
    FramesNext(domain, Framed4(identity) + [], [identity] + []);
    FramesNext(headerPrefix, Framed4(domain) + (Framed4(identity) + []), [domain] + ([identity] + []));
    FramesNext(FieldLabel, Framed4(headerPrefix) + (Framed4(domain) + (Framed4(identity) + [])), [headerPrefix] + ([domain] + ([identity] + [])));
    assert [FieldLabel] + ([headerPrefix] + ([domain] + ([identity] + []))) == [FieldLabel, headerPrefix, domain, identity];
    AADFrames(headerPrefix, domain, identity);
  }

  lemma NoFrames()
    ensures FramesOf([], [])
  {
  }

  lemma AADFrames(p: seq<Byte>, d: seq<Byte>, i: seq<Byte>)
    ensures AAD(p, d, i) == Framed4(FieldLabel) + (Framed4(p) + (Framed4(d) + (Framed4(i) + [])))
  {
    hide Framed4;
  }

  lemma FramedIs(part: seq<Byte>, rest: seq<Byte>)
    requires |part| < Word
    ensures FrameOf(Framed4(part) + rest, part, rest)
  {
    FrameStart(part, rest);
    BigEndianValue(|part|);
    hide BigEndian;
    assert (Framed4(part) + rest)[..4] == BigEndian(|part|);
  }

  /** The label, as text. */
  lemma LabelIs(i: nat)
    ensures |FieldLabel| == 28 == |"memory-service/mseh/v4/field"|
    ensures i < 28 ==> FieldLabel[i] == "memory-service/mseh/v4/field"[i] as int
  {
  }

  /** The bound is sharp: a domain and an identity of 2^32 zero bytes have the same associated data. */
  lemma AADCollides(p: seq<Byte>)
    ensures Zeros(Word) != [] && AAD(p, Zeros(Word), []) == AAD(p, [], Zeros(Word))
  {
    var z := Zeros(Word);
    assert BigEndian(0) == Zeros(4);
    assert Framed4(z) == Zeros(4) + z && Framed4([]) == Zeros(4);
    assert Zeros(4) + z + Zeros(4) == Zeros(4) + (Zeros(4) + z);
    hide Framed4;
    var q := Framed4(FieldLabel) + Framed4(p);
    assert AAD(p, z, []) == q + (Framed4(z) + Framed4([]));
    assert AAD(p, [], z) == q + (Framed4([]) + Framed4(z));
  }
}
