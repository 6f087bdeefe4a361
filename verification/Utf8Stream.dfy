/**
 The terminal stream decoder: bytes arrive in reads of any size, text goes out as UTF-8. Text is
 its UTF-8 bytes, as in the code; an ill-formed sequence becomes U+FFFD.
 */
module Utf8Stream {
  import opened Collections

  const REPLACEMENT: seq<Byte> := [0xEF, 0xBF, 0xBD]

  // ------------------------------------------------------------ section 4 of RFC 3629

  predicate IsTail(b: Byte) {
    0x80 <= b <= 0xBF
  }

  /** How long a character with this first byte is; zero when no character starts so. */
  function Need(first: Byte): (n: nat)
    ensures n <= 4 && (IsTail(first) ==> n == 0)
  {
    if first <= 0x7F then 1
    else if 0xC2 <= first <= 0xDF then 2
    else if 0xE0 <= first <= 0xEF then 3
    else if 0xF0 <= first <= 0xF4 then 4
    else 0
  }

  /** The second byte excludes overlong forms, surrogates and values past U+10FFFF. */
  predicate IsSecond(first: Byte, b: Byte) {
    && IsTail(b)
    && (first == 0xE0 ==> 0xA0 <= b) && (first == 0xED ==> b <= 0x9F)
    && (first == 0xF0 ==> 0x90 <= b) && (first == 0xF4 ==> b <= 0x8F)
  }

  predicate Fits(s: seq<Byte>, i: nat)
    requires i < |s|
  {
    if i == 0 then Need(s[0]) > 0 else i < Need(s[0]) && if i == 1 then IsSecond(s[0], s[1]) else IsTail(s[i])
  }

  /** How many bytes of `s` begin one character. */
  function Matched(s: seq<Byte>): (n: nat)
    ensures n <= |s| && n <= 4
    ensures s != [] ==> n <= Need(s[0]) && (n > 0 <==> Need(s[0]) > 0)
    ensures forall i :: 0 <= i < n ==> Fits(s, i)
    ensures n < |s| ==> !Fits(s, n)
  {
    if |s| < 1 || !Fits(s, 0) then 0
    else if |s| < 2 || !Fits(s, 1) then 1
    else if |s| < 3 || !Fits(s, 2) then 2
    else if |s| < 4 || !Fits(s, 3) then 3
    else 4
  }

  predicate Complete(s: seq<Byte>) {
    s != [] && Matched(s) == Need(s[0]) && Matched(s) > 0
  }

  /** The length of the first character, or of the ill-formed run that one U+FFFD stands for. */
  function Step(s: seq<Byte>): (n: nat)
    requires s != []
    ensures 0 < n <= |s| && n <= 4
  {
    if Matched(s) == 0 then 1 else Matched(s)
  }

  /** What the first segment decodes to. */
  function First(s: seq<Byte>): seq<Byte>
    requires s != []
  {
    if Complete(s) then s[..Step(s)] else REPLACEMENT
  }

  /** One-shot lossy decoding. */
  function Lossy(s: seq<Byte>): seq<Byte> {
    if s == [] then [] else First(s) + Lossy(s[Step(s)..])
  }

  /** The length of the longest prefix made of whole characters. */
  function ValidLen(s: seq<Byte>): (n: nat)
    ensures n <= |s|
  {
    if Complete(s) then Step(s) + ValidLen(s[Step(s)..]) else 0
  }

  predicate Valid(s: seq<Byte>) {
    ValidLen(s) == |s|
  }

  // ------------------------------------------------------------ the decoder

  /** One read: what is output, and what is held for the next read. */
  function Feed(held: seq<Byte>, read: seq<Byte>): (r: (seq<Byte>, seq<Byte>))
    ensures |r.1| <= 3
  {
    var data := held + read;
    var whole, rest := data[..ValidLen(data)], data[ValidLen(data)..];
    if |rest| >= 4 then (whole + Lossy(rest), []) else (whole, rest)
  }

  function Output(held: seq<Byte>, chunks: seq<seq<Byte>>): seq<Byte>
    decreases |chunks|
  {
    if chunks == [] then Lossy(held)
    else Feed(held, chunks[0]).0 + Output(Feed(held, chunks[0]).1, chunks[1..])
  }

  /** What has been output, and is held, after the first `k` reads. */
  function Fed(chunks: seq<seq<Byte>>, k: nat): (r: (seq<Byte>, seq<Byte>))
    requires k <= |chunks|
    ensures |r.1| <= 3
  {
    if k == 0 then ([], []) else
      var before := Fed(chunks, k - 1);
      (before.0 + Feed(before.1, chunks[k - 1]).0, Feed(before.1, chunks[k - 1]).1)
  }

  lemma {:induction false} FedThenOutput(chunks: seq<seq<Byte>>, k: nat)
    requires k <= |chunks|
    ensures Fed(chunks, k).0 + Output(Fed(chunks, k).1, chunks[k..]) == Output([], chunks)
  {
    if k > 0 {
      FedThenOutput(chunks, k - 1);
      assert chunks[k - 1..][0] == chunks[k - 1] && chunks[k - 1..][1..] == chunks[k..];
    } else {
      assert chunks[0..] == chunks;
    }
  }

  lemma EndOfStream(held: seq<Byte>)
    ensures Output(held, []) == Lossy(held) && Lossy([]) == []
  {
  }

  /** The read loop. A read error ends it like the end of the stream. */
  method DrainTerminalStream(chunks: seq<seq<Byte>>) returns (output: seq<Byte>)
    ensures output == Output([], chunks)
  {
    hide Lossy, ValidLen, Output;
    output := [];
    var leftover: seq<Byte> := [];
    for i := 0 to |chunks|
      invariant output == Fed(chunks, i).0 && leftover == Fed(chunks, i).1
    {
      ghost var before, held := output, leftover;
      var data := leftover + chunks[i];
      var validLen := ValidLen(data);
      if validLen > 0 {
        output := output + data[..validLen];
      }
      assert output == before + data[..validLen];
      var remaining := data[validLen..];
      if remaining == [] {
        leftover := [];
      } else if |remaining| >= 4 {
        output := output + Lossy(remaining);
        leftover := [];
      } else {
        leftover := remaining;
      }
      assert output == before + Feed(held, chunks[i]).0;
    }
    FedThenOutput(chunks, |chunks|);
    EndOfStream(leftover);
    assert chunks[|chunks|..] == [];
    if leftover != [] {
      output := output + Lossy(leftover);
    }
  }

  // ------------------------------------------------------------ reading more bytes

  /** More bytes change nothing about a first segment that already ended. */
  lemma MatchedMore(s: seq<Byte>, t: seq<Byte>)
    requires s != []
    ensures Matched(s) <= Matched(s + t)
    ensures Matched(s) < |s| ==> Matched(s + t) == Matched(s)
    ensures Complete(s) ==> Matched(s + t) == Matched(s)
  {
    var n, m := Matched(s), Matched(s + t);
    assert forall i :: 0 <= i < |s| ==> (s + t)[i] == s[i];
    assert forall i :: 0 <= i < |s| ==> (Fits(s + t, i) <==> Fits(s, i));
  }

  /** `s` ends inside a character, and the next byte of `t` goes on with it. */
  predicate Splits(s: seq<Byte>, t: seq<Byte>) {
    s != [] &&
    if !Complete(s) && Matched(s) == |s| then Matched(s + t) > |s|
    else Splits(s[Step(s)..], t)
  }

  lemma FirstSegmentStays(s: seq<Byte>, t: seq<Byte>)
    requires s != [] && (Complete(s) || Matched(s) < |s|)
    ensures Step(s + t) == Step(s) && (Complete(s + t) <==> Complete(s)) && First(s + t) == First(s)
    ensures (s + t)[Step(s)..] == s[Step(s)..] + t
  {
    MatchedMore(s, t);
    hide Matched, Fits;
    SliceOfJoined(s, t, Step(s));
  }

  lemma SliceOfJoined(s: seq<Byte>, t: seq<Byte>, n: nat)
    requires n <= |s|
    ensures (s + t)[..n] == s[..n] && (s + t)[n..] == s[n..] + t
  {
  }

  lemma SamePrefix(p: seq<Byte>, a: seq<Byte>, b: seq<Byte>)
    ensures p + a == p + b <==> a == b
  {
    assert (p + a)[|p|..] == a && (p + b)[|p|..] == b;
  }

  /** Bytes that go on with a character are each ill-formed on their own. */
  lemma {:induction false} TailsAlone(t: seq<Byte>, j: nat)
    requires j <= |t| && forall i :: 0 <= i < j ==> IsTail(t[i])
    ensures |Lossy(t)| == 3 * j + |Lossy(t[j..])|
  {
    if j > 0 {
      assert Step(t) == 1 && !Complete(t);
      TailsAlone(t[1..], j - 1);
      assert t[1..][j - 1..] == t[j..];
    } else {
      assert t[0..] == t;
    }
  }

  /** Cutting inside a character makes the decoded text longer. */
  lemma CutInsideCharacter(w: seq<Byte>, t: seq<Byte>)
    requires w != [] && !Complete(w) && Matched(w) == |w| && Matched(w + t) > |w|
    ensures |Lossy(w) + Lossy(t)| > |Lossy(w + t)|
  {
    var s := w + t;
    var k, j := Matched(s), Matched(s) - |w|;
    assert forall i :: 0 <= i < j ==> t[i] == s[|w| + i] && Fits(s, |w| + i);
    assert s[k..] == t[j..] && w[Step(w)..] == [];
    assert |First(s)| == if Complete(s) then k else 3;
    assert First(w) == REPLACEMENT && Step(s) == k;
    TailsAlone(t, j);
    hide Matched, Complete, First, Step, Fits;
    assert |Lossy(w)| == 3;
    assert |Lossy(s)| == |First(s)| + |Lossy(t[j..])|;
  }

  /** Decoding two pieces apart equals decoding them together exactly when the cut is not inside a
      character; otherwise the pieces give more text. */
  lemma {:induction false} CutExactly(s: seq<Byte>, t: seq<Byte>)
    ensures Lossy(s + t) == Lossy(s) + Lossy(t) <==> !Splits(s, t)
    ensures |Lossy(s + t)| <= |Lossy(s) + Lossy(t)|
    ensures Splits(s, t) ==> |Lossy(s + t)| < |Lossy(s) + Lossy(t)|
  {
    if s == [] {
      assert s + t == t && Lossy(s) + Lossy(t) == Lossy(t);
    } else if Complete(s) || Matched(s) < |s| {
      FirstSegmentStays(s, t);
      hide Matched, Complete, Step, First;
      var rest := s[Step(s)..];
      CutExactly(rest, t);
      Regroup(First(s), Lossy(rest), Lossy(t));
      SamePrefix(First(s), Lossy(rest + t), Lossy(rest) + Lossy(t));
    } else if Matched(s + t) > |s| {
      CutInsideCharacter(s, t);
    } else {
      CutAfterDeadEnd(s, t);
    }
  }

  lemma CutAfterDeadEnd(s: seq<Byte>, t: seq<Byte>)
    requires s != [] && !Complete(s) && Matched(s) == |s| && Matched(s + t) <= |s|
    ensures Lossy(s + t) == Lossy(s) + Lossy(t)
  {
    MatchedMore(s, t);
    assert (s + t)[|s|..] == t && s[|s|..] == [];
    assert Need((s + t)[0]) == Need(s[0]);
    assert Lossy(s) == REPLACEMENT + Lossy([]) == REPLACEMENT;
  }

  // ------------------------------------------------------------ well-formed prefixes

  lemma LeadingCharacter(s: seq<Byte>, t: seq<Byte>)
    requires Complete(s)
    ensures ValidLen(s) == Step(s) + ValidLen(s[Step(s)..])
    ensures ValidLen(s + t) == Step(s) + ValidLen(s[Step(s)..] + t)
    ensures Lossy(s + t) == s[..Step(s)] + Lossy(s[Step(s)..] + t)
  {
    FirstSegmentStays(s, t);
    hide Matched;
  }

  lemma {:induction false} ValidPrefix(s: seq<Byte>, t: seq<Byte>)
    ensures ValidLen(s + t) == ValidLen(s) + ValidLen(s[ValidLen(s)..] + t)
    ensures Lossy(s + t) == s[..ValidLen(s)] + Lossy(s[ValidLen(s)..] + t)
  {
    var v := ValidLen(s);
    if Complete(s) {
      LeadingCharacter(s, t);
      var n, m := Step(s), ValidLen(s[Step(s)..]);
      ValidPrefix(s[n..], t);
      ValidPrefixJoin(s, t, n, m, v);
    } else {
      assert s[0..] == s && s[..0] == [];
    }
  }

  lemma ValidPrefixJoin(s: seq<Byte>, t: seq<Byte>, n: nat, m: nat, v: nat)
    requires n <= |s| && m <= |s[n..]| && v == n + m
    requires ValidLen(s + t) == n + ValidLen(s[n..] + t) && Lossy(s + t) == s[..n] + Lossy(s[n..] + t)
    requires ValidLen(s[n..] + t) == m + ValidLen(s[n..][m..] + t)
    requires Lossy(s[n..] + t) == s[n..][..m] + Lossy(s[n..][m..] + t)
    ensures ValidLen(s + t) == v + ValidLen(s[v..] + t)
    ensures Lossy(s + t) == s[..v] + Lossy(s[v..] + t)
  {
    hide *;
    JoinPieces(s, n, m, Lossy(s[n..][m..] + t));
  }

  lemma JoinPieces(s: seq<Byte>, n: nat, m: nat, z: seq<Byte>)
    requires n <= |s| && m <= |s[n..]|
    ensures s[n..][m..] == s[n + m..]
    ensures s[..n] + (s[n..][..m] + z) == s[..n + m] + z
  {
  }

  lemma PrefixOfRest(s: seq<Byte>, n: nat, m: nat)
    requires n <= |s| && m <= |s[n..]|
    ensures s[n..][m..] == s[n + m..] && s[..n] + s[n..][..m] == s[..n + m]
  {
  }

  /** The well-formed prefix is whole characters, and none follows it. */
  lemma {:induction false} ValidPrefixStops(s: seq<Byte>)
    ensures !Complete(s[ValidLen(s)..]) && Valid(s[..ValidLen(s)])
  {
    if Complete(s) {
      var n, rest := Step(s), s[Step(s)..];
      CompleteAlone(s);
      var c := s[..n];
      assert c[Step(c)..] == [];
      hide Matched, Complete, Step, First;
      ValidPrefixStops(rest);
      PrefixOfRest(s, n, ValidLen(rest));
      assert Valid(c);
      ValidConcat(c, rest[..ValidLen(rest)]);
    } else {
      assert s[0..] == s;
    }
  }

  lemma CompleteAlone(s: seq<Byte>)
    requires Complete(s)
    ensures Complete(s[..Step(s)]) && Matched(s[..Step(s)]) == Step(s)
  {
    var c := s[..Step(s)];
    assert forall i :: 0 <= i < |c| ==> (Fits(c, i) <==> Fits(s, i));
  }

  /** Well-formed bytes decode to themselves. */
  lemma ValidDecodesToItself(s: seq<Byte>)
    requires Valid(s)
    ensures Lossy(s) == s
  {
    ValidPrefix(s, []);
    assert s + [] == s && s[..|s|] == s && s[|s|..] + [] == [];
  }

  lemma ValidConcat(a: seq<Byte>, b: seq<Byte>)
    requires Valid(a) && Valid(b)
    ensures Valid(a + b)
  {
    ValidPrefix(a, b);
    assert a[|a|..] + b == b;
  }

  /** Whatever the bytes, the decoded text is well formed. */
  lemma {:induction false} LossyIsValid(s: seq<Byte>)
    ensures Valid(Lossy(s))
  {
    if s != [] {
      LossyIsValid(s[Step(s)..]);
      var first := First(s);
      if Complete(s) {
        CompleteAlone(s);
      }
      assert Complete(first) && Step(first) == |first| && first[|first|..] == [];
      ValidConcat(first, Lossy(s[Step(s)..]));
    }
  }

  // ------------------------------------------------------------ section 3 of RFC 3629

  /** Unicode scalar values: code points without the surrogates. */
  type Scalar = c: int | 0 <= c <= 0x10FFFF && !(0xD800 <= c <= 0xDFFF)

  function Encode(c: Scalar): (s: seq<Byte>)
    ensures 1 <= |s| <= 4
  {
    if c < 0x80 then [c]
    else if c < 0x800 then [0xC0 + c / 64, 0x80 + c % 64]
    else if c < 0x10000 then [0xE0 + c / 4096, 0x80 + c / 64 % 64, 0x80 + c % 64]
    else [0xF0 + c / 262144, 0x80 + c / 4096 % 64, 0x80 + c / 64 % 64, 0x80 + c % 64]
  }

  function EncodeAll(text: seq<Scalar>): seq<Byte> {
    if text == [] then [] else Encode(text[0]) + EncodeAll(text[1..])
  }

  function Decoded(s: seq<Byte>): int
    requires Complete(s)
  {
    var n := Step(s);
    var a: int := s[0];
    if n == 1 then a
    else if n == 2 then Two(a, s[1])
    else if n == 3 then Three(a, s[1], s[2])
    else Four(a, s[1], s[2], s[3])
  }

  function Two(a: int, b: int): int {
    (a - 0xC0) * 64 + (b - 0x80)
  }

  function Three(a: int, b: int, c: int): int {
    (a - 0xE0) * 4096 + (b - 0x80) * 64 + (c - 0x80)
  }

  function Four(a: int, b: int, c: int, d: int): int {
    (a - 0xF0) * 262144 + (b - 0x80) * 4096 + (c - 0x80) * 64 + (d - 0x80)
  }

  lemma TwoBytes(a: Byte, b: Byte)
    requires Need(a) == 2 && IsSecond(a, b)
    ensures 0x80 <= Two(a, b) < 0x800 && Encode(Two(a, b)) == [a, b]
  {
  }

  lemma ThreeBytes(a: Byte, b: Byte, c: Byte)
    requires Need(a) == 3 && IsSecond(a, b) && IsTail(c)
    ensures var v := Three(a, b, c); 0x800 <= v < 0x10000 && !(0xD800 <= v <= 0xDFFF) && Encode(v) == [a, b, c]
  {
    Digits(0, a - 0xE0, b - 0x80, c - 0x80);
  }

  lemma FourBytes(a: Byte, b: Byte, c: Byte, d: Byte)
    requires Need(a) == 4 && IsSecond(a, b) && IsTail(c) && IsTail(d)
    ensures var v := Four(a, b, c, d); 0x10000 <= v <= 0x10FFFF && Encode(v) == [a, b, c, d]
  {
    Digits(a - 0xF0, b - 0x80, c - 0x80, d - 0x80);
  }

  /** The base-64 digits of a number. */
  lemma Digits(a: nat, b: nat, c: nat, d: nat)
    requires b < 64 && c < 64 && d < 64
    ensures var v := a * 262144 + b * 4096 + c * 64 + d;
            v / 262144 == a && v / 4096 % 64 == b && v / 64 % 64 == c && v % 64 == d
  {
    var v := a * 262144 + b * 4096 + c * 64 + d;
    assert v / 64 == a * 4096 + b * 64 + c;
    assert v / 4096 == a * 64 + b;
  }

  lemma EncodeFits(c: Scalar)
    ensures Need(Encode(c)[0]) == |Encode(c)|
    ensures |Encode(c)| > 1 ==> IsSecond(Encode(c)[0], Encode(c)[1])
    ensures forall i :: 2 <= i < |Encode(c)| ==> IsTail(Encode(c)[i])
  {
    if c < 0x800 {
    } else if c < 0x10000 {
      ThreeByteRange(c / 4096, c / 64 % 64, c % 64, c);
    } else {
      FourByteRange(c / 262144, c / 4096 % 64, c);
    }
  }

  lemma ThreeByteRange(a: int, b: int, low: int, c: Scalar)
    requires 0x800 <= c < 0x10000 && a == c / 4096 && b == c / 64 % 64 && low == c % 64
    ensures 0 <= a <= 15 && (a == 0 ==> b >= 32) && (a == 13 ==> b <= 31)
  {
    assert c / 64 == a * 64 + b;
  }

  lemma FourByteRange(a: int, b: int, c: Scalar)
    requires 0x10000 <= c && a == c / 262144 && b == c / 4096 % 64
    ensures 0 <= a <= 4 && (a == 0 ==> b >= 16) && (a == 4 ==> b <= 15)
  {
    assert c / 4096 == a * 64 + b;
  }

  lemma EncodeIsOneCharacter(c: Scalar)
    ensures Complete(Encode(c)) && Matched(Encode(c)) == |Encode(c)|
  {
    EncodeFits(c);
    hide Encode, IsSecond, IsTail;
  }

  /** Each character of the grammar encodes a scalar value. */
  lemma OneCharacterIsEncoded(s: seq<Byte>)
    requires Complete(s)
    ensures 0 <= Decoded(s) <= 0x10FFFF && !(0xD800 <= Decoded(s) <= 0xDFFF) && Encode(Decoded(s)) == s[..Step(s)]
  {
    var n := Step(s);
    assert Need(s[0]) == n && forall i :: 0 <= i < n ==> Fits(s, i);
    hide Encode, Two, Three, Four, Matched;
    if n == 1 {
      OneByte(s[0]);
    } else if n == 2 {
      assert Fits(s, 1);
      TwoBytes(s[0], s[1]);
    } else if n == 3 {
      assert Fits(s, 1) && Fits(s, 2);
      ThreeBytes(s[0], s[1], s[2]);
    } else {
      assert Fits(s, 1) && Fits(s, 2) && Fits(s, 3);
      FourBytes(s[0], s[1], s[2], s[3]);
    }
  }

  lemma OneByte(a: Byte)
    requires Need(a) == 1
    ensures Encode(a) == [a]
  {
  }

  /** The byte grammar accepts exactly the encodings of scalar values. */
  lemma {:induction false} ValidIsEncoded(s: seq<Byte>)
    requires Valid(s)
    ensures exists text :: EncodeAll(text) == s
  {
    if s == [] {
      assert EncodeAll([]) == s;
    } else {
      OneCharacterIsEncoded(s);
      var n, c: Scalar := Step(s), Decoded(s);
      ValidIsEncoded(s[n..]);
      var rest :| EncodeAll(rest) == s[n..];
      EncodeOneMore(c, rest, s, n);
    }
  }

  lemma EncodeOneMore(c: Scalar, rest: seq<Scalar>, s: seq<Byte>, n: nat)
    requires n <= |s| && Encode(c) == s[..n] && EncodeAll(rest) == s[n..]
    ensures exists text :: EncodeAll(text) == s
  {
    hide Encode;
    var text := [c] + rest;
    assert text[1..] == rest && s == s[..n] + s[n..];
    assert EncodeAll(text) == s;
  }

  lemma {:induction false} EncodedIsValid(text: seq<Scalar>)
    ensures Valid(EncodeAll(text))
  {
    if text != [] {
      EncodeIsOneCharacter(text[0]);
      var c := Encode(text[0]);
      assert c[Step(c)..] == [] && Valid(c);
      EncodedIsValid(text[1..]);
      ValidConcat(c, EncodeAll(text[1..]));
    }
  }

  // ------------------------------------------------------------ what ill-formed bytes decode to

  /** The first `n` bytes begin the encoding of some scalar value. */
  ghost predicate Begins(s: seq<Byte>, n: nat)
    requires n <= |s|
  {
    exists c: Scalar :: BeginsWith(s, n, c)
  }

  predicate BeginsWith(s: seq<Byte>, n: nat, c: Scalar)
    requires n <= |s|
  {
    n <= |Encode(c)| && s[..n] == Encode(c)[..n]
  }

  lemma BeginningFits(s: seq<Byte>, n: nat, c: Scalar)
    requires 0 < n <= |s| && BeginsWith(s, n, c)
    ensures n <= Matched(s) && Need(s[0]) == |Encode(c)|
  {
    EncodeFits(c);
    var e := Encode(c);
    assert forall i :: 0 <= i < n ==> s[i] == s[..n][i] == e[i];
    hide Encode;
    forall i | 0 <= i < n
      ensures Fits(s, i)
    {
      assert i >= 2 ==> IsTail(e[i]);
    }
  }

  /** The least bytes that finish a character begun by `first` and `n - 1` more. */
  function Finishing(first: Byte, n: nat): (t: seq<Byte>)
    requires 0 < n <= Need(first)
    ensures |t| == Need(first) - n
  {
    if n >= 2 then [0x80, 0x80][..Need(first) - n]
    else ([if first == 0xE0 then 0xA0 else if first == 0xF0 then 0x90 else 0x80] + [0x80, 0x80])[..Need(first) - 1]
  }

  lemma FinishedIsComplete(s: seq<Byte>, n: nat)
    requires 0 < n <= |s| && n <= Matched(s)
    ensures var t := s[..n] + Finishing(s[0], n); Complete(t) && Step(t) == |t|
  {
    var t := s[..n] + Finishing(s[0], n);
    assert t[0] == s[0] && |t| == Need(s[0]);
    forall i | 0 <= i < |t|
      ensures Fits(t, i)
    {
      if i < n {
        assert Fits(s, i) && t[i] == s[i] && (n > 1 ==> t[1] == s[1]);
      }
    }
  }

  /** How far the grammar follows a text is how far some character goes. */
  lemma BeginsExactly(s: seq<Byte>, n: nat)
    requires 0 < n <= |s|
    ensures Begins(s, n) <==> n <= Matched(s)
  {
    if n <= Matched(s) {
      FinishedIsComplete(s, n);
      var t := s[..n] + Finishing(s[0], n);
      OneCharacterIsEncoded(t);
      assert t[..|t|] == t && t[..n] == s[..n];
      assert BeginsWith(s, n, Decoded(t));
    }
    if c: Scalar :| BeginsWith(s, n, c) {
      BeginningFits(s, n, c);
    }
  }

  /** Decoding, character by character: a text that starts with an encoded scalar value keeps it; otherwise
      the longest beginning of one, or a single byte that begins none, becomes one U+FFFD. */
  lemma LossyByCharacter(s: seq<Byte>)
    requires s != []
    ensures forall c: Scalar :: Encode(c) <= s ==> Lossy(s) == Encode(c) + Lossy(s[|Encode(c)|..])
    ensures (forall c: Scalar :: !(Encode(c) <= s)) ==>
              exists n: nat :: IllFormedRun(s, n) && Lossy(s) == [0xEF, 0xBF, 0xBD] + Lossy(s[n..])
  {
    forall c: Scalar | Encode(c) <= s
      ensures Lossy(s) == Encode(c) + Lossy(s[|Encode(c)|..])
    {
      WholeCharacterFirst(s, c);
    }
    if Complete(s) {
      OneCharacterIsEncoded(s);
      assert Encode(Decoded(s)) <= s;
    } else {
      RunIsStep(s);
      hide Encode, Matched, Begins;
      assert Lossy(s) == [0xEF, 0xBF, 0xBD] + Lossy(s[Step(s)..]);
    }
  }

  lemma WholeCharacterFirst(s: seq<Byte>, c: Scalar)
    requires s != [] && Encode(c) <= s
    ensures Lossy(s) == Encode(c) + Lossy(s[|Encode(c)|..])
  {
    var n := |Encode(c)|;
    assert BeginsWith(s, n, c);
    BeginningFits(s, n, c);
    assert s[..n] == Encode(c);
    hide Encode;
    assert Complete(s) && Step(s) == n;
  }

  /** As long a beginning of a character as there is, or one byte when there is none. */
  ghost predicate IllFormedRun(s: seq<Byte>, n: nat) {
    0 < n <= |s| && (n == 1 || Begins(s, n)) && forall m :: n < m <= |s| ==> !Begins(s, m)
  }

  lemma RunIsStep(s: seq<Byte>)
    requires s != []
    ensures IllFormedRun(s, Step(s))
  {
    var n := Step(s);
    BeginsExactly(s, n);
    forall m | n < m <= |s|
      ensures !Begins(s, m)
    {
      BeginsExactly(s, m);
    }
  }

  // ------------------------------------------------------------ results

  /** Some read leaves four or more undecodable bytes that end inside a character the next reads finish. */
  predicate FlushSplits(held: seq<Byte>, chunks: seq<seq<Byte>>)
    decreases |chunks|
  {
    chunks != [] &&
    var data := held + chunks[0];
    var rest := data[ValidLen(data)..];
    (|rest| >= 4 && Splits(rest, Flatten(chunks[1..]))) || FlushSplits(Feed(held, chunks[0]).1, chunks[1..])
  }

  /** The streamed text is the one-shot decoding exactly when no flush splits a character; a split
      flush makes it longer. */
  lemma {:induction false} StreamingExactly(held: seq<Byte>, chunks: seq<seq<Byte>>)
    ensures Output(held, chunks) == Lossy(held + Flatten(chunks)) <==> !FlushSplits(held, chunks)
    ensures |Lossy(held + Flatten(chunks))| <= |Output(held, chunks)|
    ensures FlushSplits(held, chunks) ==> |Lossy(held + Flatten(chunks))| < |Output(held, chunks)|
    decreases |chunks|
  {
    hide Lossy, Matched, Complete, Step, First, ValidLen, Splits;
    if chunks == [] {
      assert held + Flatten(chunks) == held;
    } else {
      var later := Flatten(chunks[1..]);
      var data := held + chunks[0];
      var whole, rest := data[..ValidLen(data)], data[ValidLen(data)..];
      assert held + Flatten(chunks) == data + later;
      ValidPrefix(data, later);
      StreamingExactly(Feed(held, chunks[0]).1, chunks[1..]);
      var tail := Output(Feed(held, chunks[0]).1, chunks[1..]);
      if |rest| >= 4 {
        assert [] + later == later;
        FlushJoin(whole, rest, later, tail);
      } else {
        SamePrefix(whole, tail, Lossy(rest + later));
      }
    }
  }

  lemma FlushJoin(whole: seq<Byte>, rest: seq<Byte>, later: seq<Byte>, tail: seq<Byte>)
    requires |Lossy(later)| <= |tail|
    ensures whole + Lossy(rest) + tail == whole + Lossy(rest + later) <==> !Splits(rest, later) && tail == Lossy(later)
    ensures |whole + Lossy(rest + later)| <= |whole + Lossy(rest) + tail|
    ensures Splits(rest, later) || |tail| > |Lossy(later)| ==>
              |whole + Lossy(rest + later)| < |whole + Lossy(rest) + tail|
  {
    CutExactly(rest, later);
    hide Lossy, Splits;
    Regroup(whole, Lossy(rest), tail);
    SamePrefix(whole, Lossy(rest) + tail, Lossy(rest + later));
    SamePrefix(Lossy(rest), tail, Lossy(later));
  }

  lemma WellFormedNeverFlushes(data: seq<Byte>, later: seq<Byte>)
    requires Valid(data + later)
    ensures |data[ValidLen(data)..]| <= 3
    ensures Valid(data[ValidLen(data)..] + later)
  {
    var rest := data[ValidLen(data)..];
    ValidPrefix(data, later);
    ValidPrefixStops(data);
    if rest != [] {
      assert Complete(rest + later);
      MatchedMore(rest, later);
    }
  }

  lemma {:induction false} WellFormedStreamsDoNotSplit(held: seq<Byte>, chunks: seq<seq<Byte>>)
    requires Valid(held + Flatten(chunks))
    ensures !FlushSplits(held, chunks)
    decreases |chunks|
  {
    if chunks != [] {
      var data := held + chunks[0];
      assert held + Flatten(chunks) == data + Flatten(chunks[1..]);
      WellFormedNeverFlushes(data, Flatten(chunks[1..]));
      WellFormedStreamsDoNotSplit(Feed(held, chunks[0]).1, chunks[1..]);
    }
  }

  /** However a well-formed stream is cut into reads, the text is the stream. */
  lemma AnyCuttingOfValidText(chunks: seq<seq<Byte>>)
    requires Valid(Flatten(chunks))
    ensures Output([], chunks) == Flatten(chunks)
  {
    assert [] + Flatten(chunks) == Flatten(chunks);
    WellFormedStreamsDoNotSplit([], chunks);
    StreamingExactly([], chunks);
    ValidDecodesToItself(Flatten(chunks));
  }

  /** A stream that arrives in one read decodes as a whole. */
  lemma SingleRead(read: seq<Byte>)
    ensures Output([], [read]) == Lossy(read)
  {
    assert [read][1..] == [] && Flatten([read][1..]) == [] && Flatten([read]) == read + [] == read && [] + read == read;
    var rest := read[ValidLen(read)..];
    NothingToSplit(rest);
    StreamingExactly([], [read]);
  }

  lemma {:induction false} NothingToSplit(s: seq<Byte>)
    ensures !Splits(s, [])
  {
    if s != [] {
      assert s + [] == s;
      if Complete(s) || Matched(s) != |s| {
        NothingToSplit(s[Step(s)..]);
      }
    }
  }

  /** Every text handed on is well formed, for any bytes and any reads. */
  lemma {:induction false} OutputIsWellFormed(held: seq<Byte>, chunks: seq<seq<Byte>>)
    ensures Valid(Output(held, chunks))
    ensures chunks != [] ==> Valid(Feed(held, chunks[0]).0)
    decreases |chunks|
  {
    if chunks == [] {
      LossyIsValid(held);
    } else {
      var data := held + chunks[0];
      ValidPrefixStops(data);
      LossyIsValid(data[ValidLen(data)..]);
      var whole := data[..ValidLen(data)];
      ValidConcat(whole, Lossy(data[ValidLen(data)..]));
      OutputIsWellFormed(Feed(held, chunks[0]).1, chunks[1..]);
      ValidConcat(Feed(held, chunks[0]).0, Output(Feed(held, chunks[0]).1, chunks[1..]));
    }
  }

  /** An ill-formed byte with three bytes after it flushes the start of a euro sign with them, so the
      sign decodes as three replacements. */
  lemma AFlushCanSplit()
    ensures FlushSplits([], [[0xFF, 0x41, 0x41, 0xE2], [0x82, 0xAC]])
  {
    var first: seq<Byte>, second: seq<Byte> := [0xFF, 0x41, 0x41, 0xE2], [0x82, 0xAC];
    assert [first, second][1..] == [second] && [second][1..] == [];
    assert Flatten([second]) == second + Flatten([]) == second;
    assert [] + first == first && ValidLen(first) == 0 && first[0..] == first;
    var a: seq<Byte>, b: seq<Byte>, c: seq<Byte> := [0x41, 0x41, 0xE2], [0x41, 0xE2], [0xE2];
    assert first[1..] == a && a[1..] == b && b[1..] == c;
    assert c + second == [0xE2, 0x82, 0xAC];
    assert Matched(c + second) == 3;
    assert Splits(c, second) && Splits(b, second) && Splits(a, second) && Splits(first, second);
  }
}
