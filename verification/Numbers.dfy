/** Number output of student-distrib/lib.c: `itoa`, the in-place `strrev` and the `%#x` conversion. */
module Numbers {
  import opened Bytes

  type text = seq<byte>

  const ZERO_CHAR: byte := 48

  // ---------------------------------------------------------------------
  // Reading digits
  // ---------------------------------------------------------------------

  /** The lookup table `0..9A..Z`. */
  function DigitChar(d: nat): (c: byte)
    requires d < 36
  {
    if d < 10 then 48 + d else 55 + d
  }

  predicate IsDigit(c: byte, radix: nat) {
    (48 <= c < 58 && c - 48 < radix) || (65 <= c < 91 && c - 55 < radix)
  }

  function DigitValue(c: byte): (d: int) {
    if c < 65 then c - 48 else c - 55
  }

  /** The number a string of digits stands for, read from left to right after a number `v` already read. */
  ghost function Reading(v: int, s: text, radix: nat): (r: int)
    decreases |s|
  {
    if s == [] then v else Reading(v * radix + DigitValue(s[0]), s[1..], radix)
  }

  /** The digits are those of the lookup table, and each stands for its index there. */
  lemma DigitTable(d: nat, radix: nat)
    requires d < 36
    ensures IsDigit(DigitChar(d), radix) <==> d < radix
    ensures DigitChar(d) == "0123456789ABCDEFGHIJKLMNOPQRSTUVWXYZ"[d] as int && DigitValue(DigitChar(d)) == d
  {
  }

  /** One more digit multiplies the number by the radix and adds its value; no digits leave it as it is. */
  lemma {:induction false} ReadingMore(v: int, s: text, c: byte, radix: nat)
    ensures Reading(v, [], radix) == v
    ensures Reading(v, s + [c], radix) == Reading(v, s, radix) * radix + DigitValue(c)
    decreases |s|
  {
    if s == [] {
      assert s + [c] == [c] && [c][1..] == [];
    } else {
      assert (s + [c])[1..] == s[1..] + [c];
      ReadingMore(v * radix + DigitValue(s[0]), s[1..], c, radix);
    }
  }

  ghost function Reversed(s: text): (r: text)
    ensures |r| == |s|
    ensures forall k | 0 <= k < |s| :: r[k] == s[|s| - 1 - k]
  {
    if s == [] then [] else [s[|s| - 1]] + Reversed(s[..|s| - 1])
  }

  /** The number that `t`, digits with the lowest first, and a rest `v` of higher digits stand for. */
  ghost function Composed(t: text, v: int, radix: nat): (r: int) {
    if t == [] then v else Composed(t[..|t| - 1], v * radix + DigitValue(t[|t| - 1]), radix)
  }

  lemma {:induction false} ReversedReads(t: text, v: int, radix: nat)
    ensures Reading(v, Reversed(t), radix) == Composed(t, v, radix)
  {
    if t != [] {
      assert Reversed(t)[1..] == Reversed(t[..|t| - 1]);
      ReversedReads(t[..|t| - 1], v * radix + DigitValue(t[|t| - 1]), radix);
    }
  }

  ghost function Power(radix: nat, k: nat): (p: nat) {
    if k == 0 then 1 else radix * Power(radix, k - 1)
  }

  lemma DivisionShrinks(v: nat, radix: nat, p: nat)
    requires radix > 0 && v < radix * p
    ensures v / radix < p
  {
  }

  lemma RestShrinks(v: nat, radix: nat)
    requires radix >= 2 && v > 0
    ensures v / radix < v
  {
    assert v < radix * v;
    DivisionShrinks(v, radix, v);
  }

  lemma PowersOf16()
    ensures Power(16, 8) == U32
  {
    assert Power(16, 4) == 0x1_0000 by {
      assert Power(16, 2) == 256;
    }
    assert Power(16, 6) == 0x100_0000;
  }

  lemma {:induction false} PowerGrows(radix: nat, k: nat)
    requires radix >= 2
    ensures Power(2, k) <= Power(radix, k)
  {
    if k > 0 {
      PowerGrows(radix, k - 1);
      assert 2 * Power(radix, k - 1) <= radix * Power(radix, k - 1);
    }
  }

  /** 32 digits are enough for every 32-bit value in every radix. */
  lemma EnoughDigits(radix: nat)
    requires radix >= 2
    ensures U32 <= Power(radix, 32)
  {
    assert Power(2, 4) == 16;
    assert Power(2, 8) == 256;
    assert Power(2, 12) == 4096;
    assert Power(2, 16) == 0x1_0000;
    assert Power(2, 20) == 0x10_0000;
    assert Power(2, 24) == 0x100_0000;
    assert Power(2, 28) == 0x1000_0000;
    PowerGrows(radix, 32);
  }

  /** The digits written by the loop of `itoa`, lowest first. */
  ghost predicate LowFirst(t: text, value: nat, radix: nat) {
    && t != [] && Composed(t, 0, radix) == value && t[|t| - 1] != ZERO_CHAR
    && forall i | 0 <= i < |t| :: IsDigit(t[i], radix)
  }

  /** A numeral: its digits, read from left to right, give the value, and it has no leading zero. */
  ghost predicate Numeral(s: text, value: nat, radix: nat) {
    && s != [] && Reading(0, s, radix) == value
    && (forall i | 0 <= i < |s| :: IsDigit(s[i], radix))
    && (s[0] == ZERO_CHAR ==> value == 0 && |s| == 1)
  }

  // ---------------------------------------------------------------------
  // itoa
  // ---------------------------------------------------------------------

  /** The digits in `t` and the rest `v` still to be written make up the value, in at most `k` digits. */
  ghost predicate Underway(t: text, v: nat, value: nat, radix: nat, k: nat) {
    && |t| <= k && Composed(t, v, radix) == value && v < Power(radix, k - |t|)
    && (forall i | 0 <= i < |t| :: IsDigit(t[i], radix))
    && (v == 0 ==> t != [] && t[|t| - 1] != ZERO_CHAR)
  }

  lemma OneMoreDigit(t: text, v: nat, value: nat, radix: nat, k: nat, d: nat, t': text)
    requires 2 <= radix <= 36 && v > 0 && Underway(t, v, value, radix, k)
    requires d == v % radix && t' == t + [DigitChar(d)]
    ensures |t| < k && Underway(t', v / radix, value, radix, k)
  {
    assert v == (v / radix) * radix + d;
    assert t'[..|t|] == t && DigitValue(DigitChar(d)) == d;
    DivisionShrinks(v, radix, Power(radix, k - |t| - 1));
    assert v / radix == 0 ==> d == v;
  }

  method Divide(v: nat, radix: nat) returns (low: nat, rest: nat)
    requires radix >= 2
    ensures low == v % radix && rest == v / radix && low < radix
  {
    low, rest := v % radix, v / radix;
  }

  /** The next digit, and the rest. */
  method NextDigit(v: nat, radix: nat, ghost t: text, ghost value: nat, ghost k: nat)
    returns (c: byte, rest: nat, ghost t': text)
    requires 2 <= radix <= 36 && v > 0 && Underway(t, v, value, radix, k)
    ensures |t| < k && t' == t + [c] && Underway(t', rest, value, radix, k) && rest < v
  {
    var i;
    i, rest := Divide(v, radix);
    c := DigitChar(i);
    t' := t + [c];
    OneMoreDigit(t, v, value, radix, k, i, t');
    RestShrinks(v, radix);
  }

  /** The digit loop of `itoa`, from index `at`; `k` digits are enough. */
  method WriteDigits(value: nat, buf: array<byte>, at: nat, radix: nat, ghost k: nat) returns (end: nat)
    requires 2 <= radix <= 36 && 0 < value < Power(radix, k) && at + k < buf.Length
    modifies buf
    ensures at < end <= at + k && LowFirst(buf[at..end], value, radix)
    ensures forall j | 0 <= j < buf.Length && !(at <= j < end) :: buf[j] == old(buf[j])
  {
    var newval: nat := value;
    end := at;
    ghost var t: text := [];
    while newval > 0
      invariant at <= end == at + |t| <= at + k && Underway(t, newval, value, radix, k)
      invariant buf[at..end] == t
      invariant forall j | 0 <= j < at || end <= j < buf.Length :: buf[j] == old(buf[j])
      decreases newval
    {
      var c, rest; ghost var t';
      c, rest, t' := NextDigit(newval, radix, t, value, k);
      buf[end] := c;
      t, end, newval := t', end + 1, rest;
    }
  }

  /** `strrev` of the string at index `at`. */
  method Strrev(buf: array<byte>, at: nat, ghost end: nat)
    requires at <= end < buf.Length && buf[end] == NUL && forall j | at <= j < end :: buf[j] != NUL
    modifies buf
    ensures buf[at..end] == Reversed(old(buf[at..end]))
    ensures forall j | 0 <= j < buf.Length && !(at <= j < end) :: buf[j] == old(buf[j])
  {
    var len := 0;
    while buf[at + len] != NUL
      invariant at + len <= end
      decreases end - len
    {
      assert at + len != end;
      len := len + 1;
    }
    assert at + len == end;
    var i, j := 0, len - 1;
    ghost var was := buf[..];
    while i < j
      invariant 0 <= i && i + j == len - 1 && i <= j + 1
      invariant forall m | at <= m < at + i || at + j < m < end :: buf[m] == was[at + end - 1 - m]
      invariant forall m | 0 <= m < at || at + i <= m <= at + j || end <= m < buf.Length :: buf[m] == was[m]
    {
      var tmp := buf[at + j];
      buf[at + j] := buf[at + i];
      buf[at + i] := tmp;
      i, j := i + 1, j - 1;
    }
    assert buf[at..end] == Reversed(was[at..end]);
  }

  /** `itoa`: a terminated numeral at index `at`. */
  method Itoa(value: nat, buf: array<byte>, at: nat, radix: nat, ghost k: nat) returns (ghost end: nat)
    requires 2 <= radix <= 36 && 0 < k && value < Power(radix, k) && at + k < buf.Length
    modifies buf
    ensures at < end <= at + k && buf[end] == NUL && Numeral(buf[at..end], value, radix)
    ensures forall j | 0 <= j < at :: buf[j] == old(buf[j])
  {
    if value == 0 {
      buf[at] := ZERO_CHAR;
      buf[at + 1] := NUL;
      assert buf[at..at + 1] == [ZERO_CHAR];
      return at + 1;
    }
    var stop := WriteDigits(value, buf, at, radix, k);
    ghost var t := buf[at..stop];
    buf[stop] := NUL;
    assert forall j | at <= j < stop :: buf[j] == t[j - at];
    assert buf[at..stop] == t;
    Strrev(buf, at, stop);
    ReversedReads(t, 0, radix);
    end := stop;
  }

  /** ... and so for every 32-bit value in a buffer of 33 bytes, whatever the radix. */
  method ItoaWord(value: word, buf: array<byte>, at: nat, radix: nat) returns (ghost end: nat)
    requires 2 <= radix <= 36 && at + 33 <= buf.Length
    modifies buf
    ensures at < end <= at + 32 && buf[end] == NUL && Numeral(buf[at..end], value, radix)
    ensures forall j | 0 <= j < at :: buf[j] == old(buf[j])
  {
    EnoughDigits(radix);
    end := Itoa(value, buf, at, radix, 32);
  }

  /** The `%#x` conversion of `printf`: eight digits, always. */
  method PrintHex8(value: nat, conv: array<byte>) returns (out: text)
    requires value < U32 && conv.Length == 64
    modifies conv
    ensures |out| == 8 && Reading(0, out, 16) == value && forall i | 0 <= i < 8 :: IsDigit(out[i], 16)
  {
    PowersOf16();
    ghost var end := Itoa(value, conv, 8, 16, 8);
    ghost var s := conv[8..end];
    assert forall j | 8 <= j < end :: conv[j] == s[j - 8];
    var i := 0;
    while conv[8 + i] != NUL
      invariant 8 + i <= end
      decreases end - i
    {
      assert 8 + i != end;
      i := i + 1;
    }
    var start := i;
    assert 8 + start == end;
    while i < 8
      invariant start <= i <= 8
      invariant forall j | start <= j < i :: conv[j] == ZERO_CHAR
      invariant conv[end] == NUL && forall j | 8 <= j < end :: conv[j] == s[j - 8]
    {
      conv[i] := ZERO_CHAR;
      i := i + 1;
    }
    out := [];
    while conv[start + |out|] != NUL
      invariant start + |out| <= end && out == conv[start..start + |out|]
      decreases end - |out|
    {
      assert start + |out| != end;
      out := out + [conv[start + |out|]];
    }
    ghost var zeros := conv[start..8];
    assert start + |out| == end && out == zeros + s;
    ZerosRead(zeros, s);
  }

  lemma {:induction false} ZerosRead(zeros: text, s: text)
    requires forall i | 0 <= i < |zeros| :: zeros[i] == ZERO_CHAR
    ensures Reading(0, zeros + s, 16) == Reading(0, s, 16)
  {
    if zeros == [] {
      assert zeros + s == s;
    } else {
      assert (zeros + s)[1..] == zeros[1..] + s;
      ZerosRead(zeros[1..], s);
    }
  }
}
