// The Konami-code easter egg: a trailing buffer of the last ten key codes,
// compared after every keydown against a fixed ten-code sequence by joining both
// with commas, and emptied when they match.
module Konami {

  /** Up, up, down, down, left, right, left, right, B, A. */
  const Sequence: seq<nat> := [38, 38, 40, 40, 37, 39, 37, 39, 66, 65]

  /** How many key codes the buffer keeps. */
  const Window: nat := 10

  function Min(a: nat, b: nat): nat { if a < b then a else b }

  /** `s.slice(-10)`: the last ten elements of `s`, or all of them if fewer. */
  function LastTen(s: seq<nat>): (r: seq<nat>)
    ensures |r| == Min(|s|, Window)
    ensures forall i :: 0 <= i < |r| ==> r[i] == s[|s| - |r| + i]
  {
    if |s| <= Window then s else s[|s| - Window..]
  }

  /** The last ten of a sequence are the last ten of any suffix at least ten long. */
  lemma LastTenOfSuffix(p: seq<nat>, u: seq<nat>)
    requires |u| >= Window
    ensures LastTen(p + u) == LastTen(u)
  {
    assert (p + u)[|p + u| - Window..] == u[|u| - Window..];
  }

  /** Trimming early loses nothing that a later trim would keep. */
  lemma LastTenAbsorbs(s: seq<nat>, t: seq<nat>)
    ensures LastTen(LastTen(s) + t) == LastTen(s + t)
  {
    if |s| > Window {
      var cut := |s| - Window;
      assert LastTen(s) == s[cut..];
      assert s + t == s[..cut] + (s[cut..] + t);
      LastTenOfSuffix(s[..cut], s[cut..] + t);
    } else {
      assert LastTen(s) == s;
    }
  }

  // ---- `Array.prototype.join(',')` on key codes ----

  predicate IsDigit(c: char) { '0' <= c <= '9' }

  function DigitChar(d: nat): (c: char)
    requires d < 10
    ensures IsDigit(c) && c as int - '0' as int == d
  {
    (d + '0' as int) as char
  }

  /** The decimal numeral of a key code `n`, as `join` renders it. */
  function Decimal(n: nat): (r: string)
    ensures |r| > 0
    ensures forall i :: 0 <= i < |r| ==> IsDigit(r[i])
  {
    if n < 10 then [DigitChar(n)] else Decimal(n / 10) + [DigitChar(n % 10)]
  }

  /** The value of a string of digits. */
  function ParseDecimal(s: string): int
    requires forall i :: 0 <= i < |s| ==> IsDigit(s[i])
  {
    if |s| == 0 then 0
    else 10 * ParseDecimal(s[..|s| - 1]) + (s[|s| - 1] as int - '0' as int)
  }

  /** Reading a numeral back gives the number it was written from. */
  lemma {:induction false} DecimalRoundTrip(n: nat)
    ensures ParseDecimal(Decimal(n)) == n
  {
    var d := Decimal(n);
    if n >= 10 {
      assert d[..|d| - 1] == Decimal(n / 10);
      DecimalRoundTrip(n / 10);
    }
  }

  /** `codes.join(',')`. */
  function Join(codes: seq<nat>): (r: string)
    ensures |codes| == 0 <==> |r| == 0
  {
    if |codes| == 0 then ""
    else if |codes| == 1 then Decimal(codes[0])
    else Decimal(codes[0]) + "," + Join(codes[1..])
  }

  /** The first field of a join runs up to the first comma. */
  lemma JoinHead(codes: seq<nat>)
    requires |codes| > 0
    ensures var d := Decimal(codes[0]);
      |Join(codes)| >= |d| && Join(codes)[..|d|] == d &&
      (|codes| == 1 <==> |Join(codes)| == |d|) &&
      (|codes| > 1 ==> Join(codes)[|d|] == ',' && Join(codes)[|d| + 1..] == Join(codes[1..]))
  {
  }

  /** Joined key-code lists are equal only when the lists are: comparing the joins
      compares the codes. */
  lemma {:induction false} JoinInjective(a: seq<nat>, b: seq<nat>)
    requires Join(a) == Join(b)
    ensures a == b
  {
    if |a| > 0 && |b| > 0 {
      var da, db := Decimal(a[0]), Decimal(b[0]);
      var j := Join(a);
      JoinHead(a);
      JoinHead(b);
      assert da == db;
      DecimalRoundTrip(a[0]);
      DecimalRoundTrip(b[0]);
      if |a| > 1 && |b| > 1 {
        JoinInjective(a[1..], b[1..]);
        assert a == [a[0]] + a[1..];
        assert b == [b[0]] + b[1..];
      }
    }
  }

  /** The test of the keydown handler: the buffer's join equals the sequence's. */
  predicate JoinMatches(buffer: seq<nat>)
  {
    Join(buffer) == Join(Sequence)
  }

  lemma JoinMatchesIffSequence(buffer: seq<nat>)
    ensures JoinMatches(buffer) <==> buffer == Sequence
  {
    if JoinMatches(buffer) {
      JoinInjective(buffer, Sequence);
    }
  }

  // ---- One keydown, and a run of them ----

  datatype Outcome = Outcome(buffer: seq<nat>, fired: bool)

  /** The keydown handler on buffer `buffer` and key `code`: push, keep the last ten,
      fire and empty the buffer when they spell the sequence. */
  function Press(buffer: seq<nat>, code: nat): (r: Outcome)
    ensures |r.buffer| <= Window
  {
    var kept := LastTen(buffer + [code]);
    if kept == Sequence then Outcome([], true) else Outcome(kept, false)
  }

  /** The buffer after the keys `codes`, starting from `buffer`. */
  function BufferAfter(buffer: seq<nat>, codes: seq<nat>): (r: seq<nat>)
    decreases |codes|
  {
    if |codes| == 0 then buffer
    else Press(BufferAfter(buffer, codes[..|codes| - 1]), codes[|codes| - 1]).buffer
  }

  /** Whether the last of the keys `codes` fired the easter egg. */
  predicate FiresOnLast(buffer: seq<nat>, codes: seq<nat>)
    requires |codes| > 0
  {
    Press(BufferAfter(buffer, codes[..|codes| - 1]), codes[|codes| - 1]).fired
  }

  /** Reference model: where the keys typed since the last match begin (0 if
      there was none), computed from the untrimmed key history. */
  function SinceMatch(codes: seq<nat>): (k: nat)
    ensures k <= |codes|
    decreases |codes|
  {
    if |codes| == 0 then 0
    else
      var k := SinceMatch(codes[..|codes| - 1]);
      if LastTen(codes[k..]) == Sequence then |codes| else k
  }

  /** From page load, the buffer always holds exactly the last min(n, 10) of the n
      codes typed since the last match, in order; and a key fires exactly when it
      completes a match in that history. */
  lemma {:induction false} BufferIsRecentHistory(codes: seq<nat>)
    ensures BufferAfter([], codes) == LastTen(codes[SinceMatch(codes)..])
    ensures |codes| > 0 ==> (FiresOnLast([], codes) <==> SinceMatch(codes) == |codes|)
  {
    if |codes| > 0 {
      var init := codes[..|codes| - 1];
      var c := codes[|codes| - 1];
      var k := SinceMatch(init);
      BufferIsRecentHistory(init);
      SnocSlice(codes, k);
      PressOnTrimmed(init[k..], c);
      var kept := LastTen(codes[k..]);
      assert BufferAfter([], codes) == Press(LastTen(init[k..]), c).buffer;
      assert FiresOnLast([], codes) == Press(LastTen(init[k..]), c).fired;
      if kept == Sequence {
        assert SinceMatch(codes) == |codes| && BufferAfter([], codes) == [];
        assert codes[|codes|..] == [];
      } else {
        assert SinceMatch(codes) == k && BufferAfter([], codes) == kept;
      }
    }
  }

  /** A key pressed on the trimmed history `h` sees the last ten of `h` and the key. */
  lemma PressOnTrimmed(h: seq<nat>, c: nat)
    ensures Press(LastTen(h), c).fired <==> LastTen(h + [c]) == Sequence
    ensures Press(LastTen(h), c).buffer == if LastTen(h + [c]) == Sequence then [] else LastTen(h + [c])
  {
    LastTenAbsorbs(h, [c]);
  }

  lemma SnocSlice(codes: seq<nat>, k: nat)
    requires k < |codes|
    ensures codes[..|codes| - 1][k..] + [codes[|codes| - 1]] == codes[k..]
  {
  }

  lemma AppendSnoc(a: seq<nat>, b: seq<nat>, c: nat)
    ensures a + b + [c] == a + (b + [c])
  {
  }

  /** One more key after a run. */
  lemma BufferAfterSnoc(buffer: seq<nat>, codes: seq<nat>, c: nat)
    ensures BufferAfter(buffer, codes + [c]) == Press(BufferAfter(buffer, codes), c).buffer
  {
    assert (codes + [c])[..|codes|] == codes;
  }

  /** Feeding keys in two runs is feeding them in one. */
  lemma {:induction false} BufferAfterAppend(buffer: seq<nat>, xs: seq<nat>, ys: seq<nat>)
    ensures BufferAfter(buffer, xs + ys) == BufferAfter(BufferAfter(buffer, xs), ys)
    decreases |ys|
  {
    if |ys| > 0 {
      var front, last := ys[..|ys| - 1], ys[|ys| - 1];
      assert xs + ys == (xs + front) + [last];
      assert ys == front + [last];
      BufferAfterAppend(buffer, xs, front);
      BufferAfterSnoc(buffer, xs + front, last);
      BufferAfterSnoc(BufferAfter(buffer, xs), front, last);
    } else {
      assert xs + ys == xs;
    }
  }

  /** The buffer grows by at most one code per key. */
  lemma {:induction false} BufferGrowsSlowly(buffer: seq<nat>, codes: seq<nat>)
    ensures |BufferAfter(buffer, codes)| <= |buffer| + |codes|
    decreases |codes|
  {
    if |codes| > 0 {
      BufferGrowsSlowly(buffer, codes[..|codes| - 1]);
    }
  }

  /** A key that fires leaves the buffer empty, and found nine codes already in it. */
  lemma FiredPress(buffer: seq<nat>, codes: seq<nat>, c: nat)
    requires FiresOnLast(buffer, codes + [c])
    ensures BufferAfter(buffer, codes + [c]) == []
    ensures |BufferAfter(buffer, codes)| + 1 >= Window
  {
    FiresOnLastSnoc(buffer, codes, c);
    BufferAfterSnoc(buffer, codes, c);
  }

  /** After a key `a` that fires, the next firing key comes only after nine more. */
  lemma {:induction false} QuietAfterFire(pre: seq<nat>, a: nat, mid: seq<nat>, c: nat)
    requires FiresOnLast([], pre + [a]) && FiresOnLast([], pre + [a] + mid + [c])
    ensures |mid| + 1 >= Window
  {
    FiredPress([], pre, a);
    FiredPress([], pre + [a] + mid, c);
    BufferAfterAppend([], pre + [a], mid);
    BufferGrowsSlowly([], mid);
  }

  /** A prefix ending at `j` is the one ending at `i`, the keys in between and the last. */
  lemma SplitPrefix(codes: seq<nat>, i: nat, j: nat)
    requires 0 < i < j <= |codes|
    ensures codes[..i] == codes[..i - 1] + [codes[i - 1]]
    ensures codes[..j] == codes[..i - 1] + [codes[i - 1]] + codes[i..j - 1] + [codes[j - 1]]
  {
  }

  /** A match needs ten codes in the buffer, so after a match the next one
      takes at least ten fresh keys. */
  lemma {:induction false} RefireNeedsTenKeys(codes: seq<nat>, i: nat, j: nat)
    requires 0 < i < j <= |codes|
    requires FiresOnLast([], codes[..i]) && FiresOnLast([], codes[..j])
    ensures j - i >= Window
  {
    SplitPrefix(codes, i, j);
    QuietAfterFire(codes[..i - 1], codes[i - 1], codes[i..j - 1], codes[j - 1]);
  }

  /** Typing the sequence, whatever the buffer held (never more than ten codes),
      fires on its tenth key and on no earlier one. */
  lemma {:induction false} TypingSequenceFires(buffer: seq<nat>)
    requires |buffer| <= Window
    ensures FiresOnLast(buffer, Sequence)
    ensures forall k :: 0 < k < Window ==> !FiresOnLast(buffer, Sequence[..k])
  {
    forall k | 0 < k < Window
      ensures !FiresOnLast(buffer, Sequence[..k])
    {
      SequencePrefixBuffer(buffer, k);
    }
    SequenceCompletes(buffer);
  }

  /** The tenth key of the sequence fires. */
  lemma SequenceCompletes(buffer: seq<nat>)
    requires |buffer| <= Window
    ensures FiresOnLast(buffer, Sequence)
  {
    var prefix, c := Sequence[..Window - 1], Sequence[Window - 1];
    SequencePrefixBuffer(buffer, Window - 1);
    assert prefix + [c] == Sequence;
    TenthKeyFires(buffer, prefix, c);
  }

  /** When the buffer holds the trimmed history and the last nine keys were
      `prefix`, key `c` fires exactly when those ten keys are the sequence. */
  lemma TenthKeyFires(buffer: seq<nat>, prefix: seq<nat>, c: nat)
    requires |prefix| == Window - 1
    requires BufferAfter(buffer, prefix) == LastTen(buffer + prefix)
    ensures FiresOnLast(buffer, prefix + [c]) <==> prefix + [c] == Sequence
  {
    var ten := prefix + [c];
    FiresOnLastSnoc(buffer, prefix, c);
    PressOnTrimmed(buffer + prefix, c);
    assert buffer + prefix + [c] == buffer + ten;
    LastTenOfSuffix(buffer, ten);
  }

  /** Whether the key after a run fires. */
  lemma FiresOnLastSnoc(buffer: seq<nat>, codes: seq<nat>, c: nat)
    ensures FiresOnLast(buffer, codes + [c]) == Press(BufferAfter(buffer, codes), c).fired
  {
    assert (codes + [c])[..|codes|] == codes;
  }

  /** Keys none of which is the sequence's last code (65, A) never fire: the buffer
      is just the trimmed history. */
  lemma {:induction false} NoFireWithoutLastCode(buffer: seq<nat>, xs: seq<nat>)
    requires |buffer| <= Window
    requires forall i :: 0 <= i < |xs| ==> xs[i] != Sequence[Window - 1]
    ensures BufferAfter(buffer, xs) == LastTen(buffer + xs)
    ensures |xs| > 0 ==> !FiresOnLast(buffer, xs)
    decreases |xs|
  {
    if |xs| > 0 {
      var front, c := xs[..|xs| - 1], xs[|xs| - 1];
      assert xs == front + [c];
      NoFireWithoutLastCode(buffer, front);
      BufferAfterSnoc(buffer, front, c);
      FiresOnLastSnoc(buffer, front, c);
      LastTenAbsorbs(buffer + front, [c]);
      AppendSnoc(buffer, front, c);
      var kept := LastTen(buffer + xs);
      assert kept[|kept| - 1] == c;
      assert kept != Sequence by {
        if |kept| == Window { assert kept[Window - 1] != Sequence[Window - 1]; }
      }
    } else {
      assert buffer + xs == buffer;
    }
  }

  /** While a proper prefix of the sequence is typed nothing fires. */
  lemma SequencePrefixBuffer(buffer: seq<nat>, k: nat)
    requires |buffer| <= Window && k < Window
    ensures BufferAfter(buffer, Sequence[..k]) == LastTen(buffer + Sequence[..k])
    ensures k > 0 ==> !FiresOnLast(buffer, Sequence[..k])
  {
    forall i | 0 <= i < k
      ensures Sequence[..k][i] != Sequence[Window - 1]
    {
      OnlyLastIsA(i);
    }
    NoFireWithoutLastCode(buffer, Sequence[..k]);
  }

  /** The key code 65 (A) ends the sequence and occurs nowhere else in it. */
  lemma OnlyLastIsA(i: nat)
    requires i < Window - 1
    ensures Sequence[i] != Sequence[Window - 1]
  {
  }

  /** From page load, ten keys fire the easter egg exactly when they are the
      sequence, and only on the tenth; a sequence differing in any position never
      fires. */
  lemma {:induction false} OnlyTheSequenceFires(codes: seq<nat>)
    requires |codes| == Window
    ensures forall k :: 0 < k < Window ==> !FiresOnLast([], codes[..k])
    ensures FiresOnLast([], codes) <==> codes == Sequence
  {
    forall k | 0 < k < Window
      ensures !FiresOnLast([], codes[..k])
    {
      ShortHistoryQuiet(codes[..k]);
    }
    TenKeysFireIff(codes);
  }

  /** From page load, fewer than ten keys never fire: the buffer is too short. */
  lemma ShortHistoryQuiet(codes: seq<nat>)
    requires 0 < |codes| < Window
    ensures !FiresOnLast([], codes)
  {
    BufferGrowsSlowly([], codes[..|codes| - 1]);
  }

  /** From page load, the tenth key fires exactly when the ten keys are the sequence. */
  lemma TenKeysFireIff(codes: seq<nat>)
    requires |codes| == Window
    ensures FiresOnLast([], codes) <==> codes == Sequence
  {
    var init, c := codes[..Window - 1], codes[Window - 1];
    assert codes == init + [c];
    FiresOnLastSnoc([], init, c);
    ShortBufferIsHistory(init);
    assert LastTen(init + [c]) == init + [c];
  }

  /** From page load, fewer than ten keys leave all of them in the buffer. */
  lemma ShortBufferIsHistory(codes: seq<nat>)
    requires |codes| < Window
    ensures BufferAfter([], codes) == codes
  {
    BufferIsRecentHistory(codes);
    NoMatchInShortHistory(codes);
    assert codes[0..] == codes;
  }

  /** Fewer than ten keys from page load never complete a match. */
  lemma {:induction false} NoMatchInShortHistory(codes: seq<nat>)
    requires |codes| < Window
    ensures SinceMatch(codes) == 0
    decreases |codes|
  {
    if |codes| > 0 {
      NoMatchInShortHistory(codes[..|codes| - 1]);
    }
  }

  /** The keydown listener and the global `konamiCode` array it owns. */
  class KonamiDetector {
    var buffer: seq<nat>
    /** The body's `rainbow` animation, set on a match and cleared 4 s later. */
    var rainbow: bool

    constructor ()
      ensures buffer == [] && !rainbow
    {
      buffer, rainbow := [], false;
    }

    /** One keydown with the given key code; reports whether the egg fired. */
    method KeyDown(code: nat) returns (fired: bool)
      modifies this
      ensures Outcome(buffer, fired) == Press(old(buffer), code)
      ensures rainbow == (fired || old(rainbow))
    {
      buffer := buffer + [code];
      if |buffer| > Window {
        buffer := buffer[|buffer| - Window..];
      }
      assert buffer == LastTen(old(buffer) + [code]);
      fired := Join(buffer) == Join(Sequence);
      JoinMatchesIffSequence(buffer);
      if fired {
        rainbow := true;
        buffer := [];
      }
    }

    /** The 4-second timeout after a match. */
    method RainbowTimeout()
      modifies this`rainbow
      ensures !rainbow
    {
      rainbow := false;
    }
  }
}
