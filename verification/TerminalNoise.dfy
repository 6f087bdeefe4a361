/**
 Cleaning of captured diagnostics: escape sequences and control characters go, newline and tab stay.
 */
module TerminalNoise {
  import opened Collections

  const ESC := '\U{1b}'
  const BEL := '\U{07}'

  /** The control characters U+0000 to U+001F and U+007F to U+009F. */
  predicate IsControl(c: char) {
    c <= '\U{1f}' || '\U{7f}' <= c <= '\U{9f}'
  }

  predicate IsKept(c: char) {
    !IsControl(c) || c == '\n' || c == '\t'
  }

  /** The final byte of a control sequence, section 5.4 of ECMA-48. */
  predicate IsFinal(c: char) {
    '\U{40}' <= c <= '\U{7e}'
  }

  /** What follows a control sequence's final byte. */
  function AfterCsi(s: string): (r: string)
    ensures |r| <= |s|
  {
    if s == [] then [] else if IsFinal(s[0]) then s[1..] else AfterCsi(s[1..])
  }

  /** What follows a control string, ended by BEL or by the next escape, section 5.6 of ECMA-48. */
  function AfterOsc(s: string): (r: string)
    ensures |r| <= |s|
  {
    if s == [] then [] else if s[0] == BEL then s[1..] else if s[0] == ESC then s else AfterOsc(s[1..])
  }

  /** What is left to scan after the first character. */
  function Rest(s: string): (r: string)
    requires s != []
    ensures |r| < |s|
  {
    if s[0] == ESC && |s| > 1 && s[1] == '[' then AfterCsi(s[2..])
    else if s[0] == ESC && |s| > 1 && s[1] == ']' then AfterOsc(s[2..])
    else s[1..]
  }

  function Kept(c: char): string {
    if IsKept(c) then [c] else []
  }

  function Strip(s: string): string
    decreases |s|
  {
    if s == [] then [] else Kept(s[0]) + Strip(Rest(s))
  }

  // ------------------------------------------------------------ the code

  lemma SuffixStep(s: string, i: nat)
    requires i < |s|
    ensures s[i..] == [s[i]] + s[i + 1..] && s[i..][1..] == s[i + 1..]
    ensures i + 1 < |s| ==> s[i..][1] == s[i + 1] && s[i..][2..] == s[i + 2..]
  {
  }

  method SkipCsi(input: string, start: nat) returns (i: nat)
    requires start <= |input|
    ensures start <= i <= |input| && input[i..] == AfterCsi(input[start..])
  {
    i := start;
    while i < |input|
      invariant start <= i <= |input| && AfterCsi(input[i..]) == AfterCsi(input[start..])
    {
      SuffixStep(input, i);
      i := i + 1;
      if IsFinal(input[i - 1]) {
        return;
      }
    }
  }

  method SkipOsc(input: string, start: nat) returns (i: nat)
    requires start <= |input|
    ensures start <= i <= |input| && input[i..] == AfterOsc(input[start..])
  {
    i := start;
    while i < |input|
      invariant start <= i <= |input| && AfterOsc(input[i..]) == AfterOsc(input[start..])
    {
      SuffixStep(input, i);
      if input[i] == BEL {
        i := i + 1;
        return;
      }
      if input[i] == ESC {
        return;
      }
      i := i + 1;
    }
  }

  lemma StripStep(s: string)
    requires s != []
    ensures Strip(s) == Kept(s[0]) + Strip(Rest(s))
  {
  }

  /** Where the scan goes on after the character at `at`. */
  method SkipSequence(input: string, at: nat) returns (i: nat)
    requires at < |input|
    ensures at < i <= |input| && input[i..] == Rest(input[at..])
  {
    SuffixStep(input, at);
    i := at + 1;
    if input[at] == ESC {
      if i < |input| && input[i] == '[' {
        i := SkipCsi(input, i + 1);
      } else if i < |input| && input[i] == ']' {
        i := SkipOsc(input, i + 1);
      }
    }
  }

  method StripTerminalNoise(input: string) returns (out: string)
    ensures out == Strip(input)
  {
    hide Strip, Rest;
    out := [];
    var i := 0;
    assert input[0..] == input;
    while i < |input|
      invariant i <= |input| && out + Strip(input[i..]) == Strip(input)
    {
      var c := input[i];
      StripStep(input[i..]);
      var next := SkipSequence(input, i);
      assert out + (Kept(c) + Strip(input[next..])) == out + Kept(c) + Strip(input[next..]);
      if c != ESC && (!IsControl(c) || c == '\n' || c == '\t') {
        out := out + [c];
      } else {
        assert out + Kept(c) == out;
      }
      i := next;
    }
    StripNothing();
    assert input[i..] == [];
  }

  lemma StripNothing()
    ensures Strip([]) == []
  {
  }

  // ------------------------------------------------------------ results

  predicate Clean(s: string) {
    forall i :: 0 <= i < |s| ==> IsKept(s[i])
  }

  /** Nothing but printable characters, newlines and tabs is left. */
  lemma {:induction false} StrippedIsClean(s: string)
    ensures Clean(Strip(s)) && |Strip(s)| <= |s|
    decreases |s|
  {
    if s != [] {
      StrippedIsClean(Rest(s));
    }
  }

  /** Clean text is left as it is, and nothing else is. */
  lemma {:induction false} CleanIsUntouched(s: string)
    ensures Strip(s) == s <==> Clean(s)
    decreases |s|
  {
    if s == [] {
    } else if IsKept(s[0]) {
      CleanIsUntouched(s[1..]);
      assert Rest(s) == s[1..] && s == [s[0]] + s[1..];
      assert Clean(s) <==> Clean(s[1..]) by {
        assert forall i :: 1 <= i < |s| ==> s[i] == s[1..][i - 1];
      }
    } else {
      StrippedIsClean(Rest(s));
      assert |Strip(s)| < |s|;
    }
  }

  /** Cleaning twice is cleaning once. */
  lemma StripIsIdempotent(s: string)
    ensures Strip(Strip(s)) == Strip(s)
  {
    StrippedIsClean(s);
    CleanIsUntouched(Strip(s));
  }

  lemma KeptStays(c: char, s: string)
    requires IsKept(c)
    ensures Strip([c] + s) == [c] + Strip(s)
  {
    assert ([c] + s)[1..] == s;
  }

  /** Clean text before anything stays in front of what that cleans to. */
  lemma {:induction false} CleanPrefixStays(a: string, b: string)
    requires Clean(a)
    ensures Strip(a + b) == a + Strip(b)
  {
    if a == [] {
      assert a + b == b;
    } else {
      var c, rest := a[0], a[1..];
      assert a == [c] + rest && IsKept(c) && Clean(rest);
      hide *;
      KeptStays(c, rest + b);
      CleanPrefixStays(rest, b);
      Regroup([c], rest, b);
      Regroup([c], rest, Strip(b));
    }
  }

  /** What is kept: newline, tab, and everything but the control characters. */
  lemma KeptExactly(c: char)
    ensures IsKept(c) <==> c == '\n' || c == '\t' || '\U{20}' <= c <= '\U{7e}' || c > '\U{9f}'
  {
  }

  /** A control character that starts no sequence goes alone: the text around it stays. */
  lemma ControlCharacterVanishes(a: string, c: char, b: string)
    requires Clean(a) && !IsKept(c) && !(c == ESC && b != [] && (b[0] == '[' || b[0] == ']'))
    ensures Strip(a + ([c] + b)) == a + Strip(b)
  {
    var s := [c] + b;
    assert s[1..] == b && Rest(s) == b;
    CleanPrefixStays(a, s);
    StripStep(s);
    hide Strip, Rest, Clean;
    assert Kept(c) + Strip(b) == Strip(b);
  }

  lemma {:induction false} CsiEnds(params: string, last: char, b: string)
    requires (forall i :: 0 <= i < |params| ==> !IsFinal(params[i])) && IsFinal(last)
    ensures AfterCsi(params + [last] + b) == b
  {
    var s := params + [last] + b;
    if params == [] {
      assert s[1..] == b;
    } else {
      assert s[0] == params[0] && s[1..] == params[1..] + [last] + b;
      CsiEnds(params[1..], last, b);
    }
  }

  lemma {:induction false} OscEnds(text: string, b: string)
    requires forall i :: 0 <= i < |text| ==> text[i] != BEL && text[i] != ESC
    ensures AfterOsc(text + [BEL] + b) == b
    ensures b != [] && b[0] == ESC ==> AfterOsc(text + b) == b
  {
    if text == [] {
      assert (text + [BEL] + b)[1..] == b && text + b == b;
    } else {
      assert (text + [BEL] + b)[1..] == text[1..] + [BEL] + b && (text + b)[1..] == text[1..] + b;
      OscEnds(text[1..], b);
    }
  }

  /** A whole control sequence between clean text and anything else vanishes. */
  lemma ControlSequenceVanishes(a: string, params: string, last: char, b: string)
    requires Clean(a) && (forall i :: 0 <= i < |params| ==> !IsFinal(params[i])) && IsFinal(last)
    ensures Strip(a + ([ESC, '['] + (params + [last] + b))) == a + Strip(b)
  {
    var tail := params + [last] + b;
    var s := [ESC, '['] + tail;
    CsiEnds(params, last, b);
    assert s[2..] == tail && Rest(s) == b;
    CleanPrefixStays(a, s);
    StripStep(s);
    hide Strip, Rest, Clean;
    assert Kept(ESC) + Strip(b) == Strip(b);
  }

  /** So does a whole control string, ended by BEL or by the next escape. */
  lemma ControlStringVanishes(a: string, text: string, b: string)
    requires Clean(a) && forall i :: 0 <= i < |text| ==> text[i] != BEL && text[i] != ESC
    ensures Strip(a + ([ESC, ']'] + (text + [BEL] + b))) == a + Strip(b)
    ensures b != [] && b[0] == ESC ==> Strip(a + ([ESC, ']'] + (text + b))) == a + Strip(b)
  {
    OscEnds(text, b);
    ControlStringGoes(a, text + [BEL] + b, b);
    if b != [] && b[0] == ESC {
      ControlStringGoes(a, text + b, b);
    }
  }

  lemma ControlStringGoes(a: string, tail: string, b: string)
    requires Clean(a) && AfterOsc(tail) == b
    ensures Strip(a + ([ESC, ']'] + tail)) == a + Strip(b)
  {
    var s := [ESC, ']'] + tail;
    assert s[2..] == tail && Rest(s) == b;
    CleanPrefixStays(a, s);
    StripStep(s);
    hide Strip, Rest, Clean;
    assert Kept(ESC) + Strip(b) == Strip(b);
  }

  lemma {:induction false} NeverEnds(text: string)
    ensures (forall i :: 0 <= i < |text| ==> !IsFinal(text[i])) ==> AfterCsi(text) == []
    ensures (forall i :: 0 <= i < |text| ==> text[i] != BEL && text[i] != ESC) ==> AfterOsc(text) == []
  {
    if text != [] {
      NeverEnds(text[1..]);
    }
  }

  /** And one that the text breaks off takes the rest with it. */
  lemma UnfinishedSequenceVanishes(a: string, text: string)
    requires Clean(a)
    ensures (forall i :: 0 <= i < |text| ==> !IsFinal(text[i])) ==> Strip(a + ([ESC, '['] + text)) == a
    ensures (forall i :: 0 <= i < |text| ==> text[i] != BEL && text[i] != ESC) ==> Strip(a + ([ESC, ']'] + text)) == a
  {
    NeverEnds(text);
    StripNothing();
    assert a + [] == a;
    if forall i :: 0 <= i < |text| ==> text[i] != BEL && text[i] != ESC {
      ControlStringGoes(a, text, []);
    }
    if forall i :: 0 <= i < |text| ==> !IsFinal(text[i]) {
      var s := [ESC, '['] + text;
      assert s[2..] == text && Rest(s) == [];
      CleanPrefixStays(a, s);
      StripStep(s);
      assert Kept(ESC) + [] == [];
    }
  }
}
