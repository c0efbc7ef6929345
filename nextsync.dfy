/** The string and cursor helpers of sync/nextsync.c: `memcmp`, `memset`,
    `atoi` (which formats a number as decimal text), `strinstr`, and the
    cursor arithmetic of `checkscroll`, `print` and `printn`. Buffers are
    byte arrays or sequences; C strings end at the first zero byte. */
module NextSync {
  import opened Bytes

  /** The terminating byte of a C string. */
  const Nul: Byte := 0
  /** The character '0'. */
  const Digit0: Byte := 48

  /** A value reduced to the 8 bits of a `char`. */
  function Wrap8(x: int): Byte {
    x % 256
  }

  /** `memcmp`: compare the first `l` bytes of `a` and `b`. The result is 0
      exactly when they agree; otherwise it is the 8-bit difference at the
      first place where they differ. */
  method Memcmp(a: seq<Byte>, b: seq<Byte>, l: nat) returns (r: Byte)
    requires l <= |a| && l <= |b|
    ensures r == 0 <==> a[..l] == b[..l]
    ensures r != 0 ==> exists i :: 0 <= i < l && a[..i] == b[..i] && a[i] != b[i] && r == Wrap8(a[i] as int - b[i] as int)
  {
    var i := 0;
    while i < l
      invariant 0 <= i <= l && a[..i] == b[..i]
    {
      var v := Wrap8(a[i] as int - b[i] as int);
      if v != 0 {
        assert a[..l][i] != b[..l][i];
        return v;
      }
      assert a[..i + 1] == a[..i] + [a[i]] && b[..i + 1] == b[..i] + [b[i]];
      i := i + 1;
    }
    return 0;
  }

  /** `memset`: the first `l` bytes of `a` become `b`; the rest stay. */
  method Memset(a: array<Byte>, b: Byte, l: nat)
    requires l <= a.Length
    modifies a
    ensures forall i :: 0 <= i < l ==> a[i] == b
    ensures a[l..] == old(a[l..])
  {
    var i := 0;
    while i < l
      invariant 0 <= i <= l
      invariant forall j :: 0 <= j < i ==> a[j] == b
      invariant a[i..] == old(a[i..])
    {
      a[i] := b;
      i := i + 1;
    }
  }

  // ---------------------------------------------------------------- decimal text

  function Pow10(n: nat): (p: nat)
    ensures p > 0
  {
    if n == 0 then 1 else 10 * Pow10(n - 1)
  }

  /** The decimal digits of `v` without leading zeros; zero has none. */
  function Decimal(v: nat): (s: seq<Byte>)
    ensures forall i :: 0 <= i < |s| ==> Digit0 <= s[i] <= Digit0 + 9
    ensures v > 0 ==> |s| > 0 && s[0] != Digit0
    ensures v == 0 ==> s == []
  {
    if v == 0 then [] else Decimal(v / 10) + [Digit0 + v % 10]
  }

  /** The number a string of decimal digits stands for. */
  function ValueOf(s: seq<Byte>): nat
    requires forall i :: 0 <= i < |s| ==> Digit0 <= s[i] <= Digit0 + 9
  {
    if s == [] then 0 else ValueOf(s[..|s| - 1]) * 10 + (s[|s| - 1] - Digit0)
  }

  /** Reading the digits of `v` gives `v` back. */
  lemma {:induction false} DecimalRoundTrip(v: nat)
    ensures ValueOf(Decimal(v)) == v
    decreases v
  {
    if v > 0 {
      var s := Decimal(v);
      assert s[..|s| - 1] == Decimal(v / 10);
      DecimalRoundTrip(v / 10);
    }
  }

  /** A digit string without a leading zero is the decimal text of its own
      value, so `Decimal` produces every such string exactly once. */
  lemma {:induction false} DecimalOfValue(s: seq<Byte>)
    requires forall i :: 0 <= i < |s| ==> Digit0 <= s[i] <= Digit0 + 9
    requires s != [] ==> s[0] != Digit0
    ensures Decimal(ValueOf(s)) == s
    decreases |s|
  {
    if s != [] {
      var s' := s[..|s| - 1];
      var d := s[|s| - 1] - Digit0;
      DecimalOfValue(s');
      var n := ValueOf(s);
      assert n == ValueOf(s') * 10 + d;
      if s' == [] {
        assert s == [s[0]];
        assert n == d && d != 0;
      } else {
        assert ValueOf(s') > 0;
      }
      assert n / 10 == ValueOf(s') && n % 10 == d;
      assert s == s' + [s[|s| - 1]];
    }
  }

  /** Numbers below 10^n have at most n digits. */
  lemma {:induction false} DecimalLength(v: nat, n: nat)
    requires v < Pow10(n)
    ensures |Decimal(v)| <= n
    decreases n
  {
    if v > 0 {
      assert n > 0;
      DecimalLength(v / 10, n - 1);
    }
  }

  /** A larger number never has shorter text. */
  lemma {:induction false} DecimalMonotone(a: nat, b: nat)
    requires a <= b
    ensures |Decimal(a)| <= |Decimal(b)|
    decreases b
  {
    if a > 0 {
      DecimalMonotone(a / 10, b / 10);
    }
  }

  /** The place values `atoi` walks through, ended by 0. */
  const Places: seq<nat> := [1000000000, 100000000, 10000000, 1000000, 100000, 10000, 1000, 100, 10, 1, 0]

  /** The place just above `Places[dig]`: ten times it while places remain,
      and 1 once the walk reaches the terminating 0. */
  function Above(dig: nat): nat
    requires dig <= 10
  {
    if dig == 0 then 10000000000 else Places[dig - 1]
  }

  lemma PlaceStep(dig: nat)
    requires dig <= 10
    ensures dig < 10 ==> Places[dig] > 0 && Above(dig) == 10 * Places[dig]
    ensures dig == 10 ==> Places[dig] == 0 && Above(dig) == 1
  {
  }

  /** Once the walk reaches the terminating place, the prefix is all of `d`. */
  lemma AllPlaces(d: nat, hi: nat, rest: nat, dig: nat, u: nat)
    requires dig <= 10 && Places[dig] == 0 && u == Above(dig)
    requires d == Times(hi, u) + rest && rest < u
    ensures hi == d
  {
    PlaceStep(dig);
    TimesOne(hi);
  }

  /** `k` copies of `t` added up: what `atoi` has subtracted after counting
      a digit up to `k` at place `t`. */
  function Times(k: nat, t: nat): nat
    decreases k
  {
    if k == 0 then 0 else Times(k - 1, t) + t
  }

  lemma {:induction false} TimesAdd(a: nat, b: nat, t: nat)
    ensures Times(a + b, t) == Times(a, t) + Times(b, t)
    decreases a
  {
    if a > 0 {
      TimesAdd(a - 1, b, t);
    }
  }

  lemma TimesTen(t: nat)
    ensures Times(10, t) == 10 * t
  {
    TimesAdd(5, 5, t);
    TimesAdd(4, 1, t);
    TimesAdd(2, 2, t);
  }

  /** Ten copies of `t`, `a` times over, are `a` copies of the next place. */
  lemma {:induction false} TimesShift(a: nat, t: nat)
    ensures Times(10 * a, t) == Times(a, 10 * t)
    decreases a
  {
    if a > 0 {
      TimesShift(a - 1, t);
      TimesAdd(10 * (a - 1), 10, t);
      TimesTen(t);
    }
  }

  lemma {:induction false} TimesAtLeast(k: nat, t: nat)
    requires t > 0
    ensures k <= Times(k, t)
    decreases k
  {
    if k > 0 {
      TimesAtLeast(k - 1, t);
    }
  }

  lemma {:induction false} TimesOne(k: nat)
    ensures Times(k, 1) == k
    decreases k
  {
    if k > 0 {
      TimesOne(k - 1);
    }
  }

  /** Fewer than ten copies of `t` fit below ten copies of `t`. */
  lemma CountBelowTen(k: nat, t: nat)
    requires Times(k, t) < Times(10, t)
    ensures k < 10
  {
    if k >= 10 {
      TimesAdd(10, k - 10, t);
      assert false;
    }
  }

  /** Appending digit `k` to the prefix `hi` counted in places of `10 t`
      gives the prefix counted in places of `t`. */
  lemma DigitValue(t: nat, hi: nat, k: nat)
    ensures Times(hi, 10 * t) + Times(k, t) == Times(10 * hi + k, t)
  {
    TimesShift(hi, t);
    TimesAdd(10 * hi, k, t);
  }

  /** A positive number's text is the text of its tens followed by its last digit. */
  lemma DecimalAppend(hi: nat, k: nat)
    requires k < 10 && 10 * hi + k > 0
    ensures Decimal(10 * hi + k) == Decimal(hi) + [Digit0 + k]
  {
  }

  /** Counting the digit at place `t` as `k`, with `rest` left below `t`,
      splits `d` one place further: the digit extends the text of the
      places above, and `d` is the new prefix in copies of `t` plus `rest`. */
  lemma DigitEmitted(d: nat, t: nat, hi: nat, k: nat, rest: nat) returns (q: nat)
    requires t > 0 && d >= t && rest < t && k < 10
    requires d == Times(hi, 10 * t) + Times(k, t) + rest
    ensures q == 10 * hi + k && q <= d && d == Times(q, t) + rest
    ensures Decimal(q) == Decimal(hi) + [Digit0 + k]
  {
    q := 10 * hi + k;
    DigitValue(t, hi, k);
    TimesAtLeast(q, t);
    assert q > 0;
    DecimalAppend(hi, k);
  }

  /** A place above `d` contributes nothing and leaves `d` whole. */
  lemma DigitSkipped(d: nat, t: nat, hi: nat, rest: nat)
    requires t > 0 && d < t && rest < 10 * t && d == Times(hi, 10 * t) + rest
    ensures hi == 0 && rest == d && d == Times(0, t) + rest
  {
  }

  /** The inner loop of `atoi`: subtract `t` from `rest` as often as it goes,
      counting the digit byte at `b[p]` up from '0' each time. */
  method CountDigit(b: array<Byte>, p: nat, t: nat, rest: nat) returns (left: nat, ghost k: nat)
    requires p < b.Length && b[p] == Digit0 && 0 < t && rest < 10 * t
    modifies b
    ensures k < 10 && left < t && rest == Times(k, t) + left
    ensures b[..] == old(b[..])[p := Digit0 + k]
  {
    left, k := rest, 0;
    TimesTen(t);
    while left >= t
      invariant rest == Times(k, t) + left && rest < Times(10, t)
      invariant k < 10 && b[..] == old(b[..])[p := Digit0 + k]
    {
      CountBelowTen(k + 1, t);
      b[p] := b[p] + 1;
      left := left - t;
      k := k + 1;
    }
  }

  /** The buffer `s` holds the text of `hi`, a '0' being counted up at `p`,
      and beyond `p` what `s0` held. */
  predicate Emitted(s: seq<Byte>, s0: seq<Byte>, p: nat, hi: nat)
  {
    p < |s| == |s0| && p == |Decimal(hi)| && s[..p] == Decimal(hi) && s[p] == Digit0
    && s[p + 1..] == s0[p + 1..]
  }

  /** Keeping the counted digit and starting a fresh '0' after it. */
  lemma EmitStep(s: seq<Byte>, s0: seq<Byte>, p: nat, hi: nat, k: nat, q: nat)
    requires Emitted(s, s0, p, hi) && p + 1 < |s| && k < 10
    requires Decimal(q) == Decimal(hi) + [Digit0 + k]
    ensures Emitted(s[p := Digit0 + k][p + 1 := Digit0], s0, p + 1, q)
  {
    var s' := s[p := Digit0 + k][p + 1 := Digit0];
    assert s'[..p + 1] == s[..p] + [Digit0 + k];
    assert s'[p + 2..] == s[p + 2..];
  }

  /** Replacing the pending '0' by the terminator finishes the text. */
  lemma Terminated(s: seq<Byte>, s0: seq<Byte>, p: nat, v: nat)
    requires Emitted(s, s0, p, v)
    ensures s[p := Nul][..p] == Decimal(v)
    ensures forall i :: p < i < |s| ==> s[p := Nul][i] == s0[i]
  {
    assert s[p := Nul][..p] == s[..p];
    forall i | p < i < |s|
      ensures s[p := Nul][i] == s0[i]
    {
      assert s[i] == s[p + 1..][i - p - 1];
    }
  }

  /** `atoi`: write the decimal text of `v` into `b` without leading zeros,
      terminate it with a zero byte and return its length. For each place
      value from 10^9 down to 1 that the original `v` reaches, the digit is
      counted up from '0' by repeated subtraction. */
  method Atoi(v: nat, b: array<Byte>) returns (p: nat)
    requires v < 0x1_0000_0000 && |Decimal(v)| < b.Length
    modifies b
    ensures p == |Decimal(v)| && b[..p] == Decimal(v) && b[p] == Nul
    ensures forall i :: p < i < b.Length ==> b[i] == old(b[i])
  {
    var d := v;
    var rest: nat := v;
    var dig := 0;
    p := 0;
    b[p] := Digit0;
    ghost var u: nat := 10000000000;
    ghost var hi: nat := 0;
    while Places[dig] > 0
      invariant 0 <= dig <= 10 && u == Above(dig)
      invariant d == Times(hi, u) + rest && rest < u
      invariant Emitted(b[..], old(b[..]), p, hi) && p <= |Decimal(d)|
      decreases 10 - dig
    {
      var t := Places[dig];
      PlaceStep(dig);
      if d >= t {
        ghost var k, s := 0, b[..];
        rest, k := CountDigit(b, p, t, rest);
        ghost var q := DigitEmitted(d, t, hi, k, rest);
        DecimalMonotone(q, d);
        EmitStep(s, old(b[..]), p, hi, k, q);
        hi := q;
        p := p + 1;
        b[p] := Digit0;
      } else {
        DigitSkipped(d, t, hi, rest);
      }
      dig := dig + 1;
      u := t;
    }
    AllPlaces(d, hi, rest, dig, u);
    Terminated(b[..], old(b[..]), p, d);
    ghost var s := b[..];
    b[p] := Nul;
    assert b[..] == s[p := Nul];
  }

  // ---------------------------------------------------------------- strings

  /** The length of the C string held in `s`: the position of its first zero. */
  function StrLen(s: seq<Byte>): (n: nat)
    requires Nul in s
    ensures n < |s| && s[n] == Nul
    ensures forall i :: 0 <= i < n ==> s[i] != Nul
  {
    if s[0] == Nul then 0 else 1 + StrLen(s[1..])
  }

  /** The C string `b` occurs in `a` at offset `k`. */
  predicate MatchAt(a: seq<Byte>, b: seq<Byte>, k: nat)
    requires Nul in b
  {
    k + StrLen(b) <= |a| && a[k..k + StrLen(b)] == b[..StrLen(b)]
  }

  /** `strinstr`: 1 when the C string `b` is empty or occurs in `a` at one of
      the first `len` offsets (the match itself may run past `len`), 0
      otherwise. */
  method Strinstr(a: seq<Byte>, b: seq<Byte>, len: nat) returns (r: Byte)
    requires Nul in b && StrLen(b) < 256
    requires StrLen(b) == 0 || len + StrLen(b) <= |a| + 1
    ensures r == 0 || r == 1
    ensures r == 1 <==> StrLen(b) == 0 || exists k :: 0 <= k < len && MatchAt(a, b, k)
  {
    var n := StrLen(b);
    if b[0] == Nul {
      return 1;
    }
    var k := 0;
    while k < len
      invariant 0 <= k <= len
      invariant forall j :: 0 <= j < k ==> !MatchAt(a, b, j)
    {
      if a[k] == b[0] {
        var i := 0;
        while b[i] != Nul && a[k + i] == b[i]
          invariant 0 <= i <= n
          invariant a[k..k + i] == b[..i]
          decreases n - i
        {
          assert a[k..k + i + 1] == a[k..k + i] + [a[k + i]];
          i := i + 1;
        }
        if b[i] == Nul {
          assert i == n && MatchAt(a, b, k);
          return 1;
        }
        assert a[k..k + n][i] != b[..n][i];
      } else {
        assert a[k..k + n][0] != b[..n][0];
      }
      k := k + 1;
    }
    return 0;
  }

  // ---------------------------------------------------------------- cursor

  /** The screen has 32 columns and 24 rows of characters. */
  const Columns: Byte := 32
  const Rows: Byte := 24

  /** `checkscroll`: a cursor past the last row moves up 8 rows (the screen
      memory scroll that goes with it is not part of this model). */
  function CheckScroll(y: Byte): (r: Byte)
    ensures r <= y && (y < Rows ==> r == y)
    ensures y < Columns ==> r < Rows
    ensures Rows <= y ==> r + 8 == y
  {
    if y >= Rows then y - 8 else y
  }

  /** The cursor after drawing one character at (`x`, `y`): one column on,
      wrapping to the next row at column 32, with 8-bit wrap-around. */
  function Advance(x: Byte, y: Byte): (Byte, Byte) {
    var x1 := Wrap8(x as int + 1);
    if x1 == Columns then (0, CheckScroll(Wrap8(y as int + 1))) else (x1, CheckScroll(y))
  }

  /** One step from a cursor on the screen stays on the screen. */
  lemma AdvanceOnScreen(x: Byte, y: Byte)
    requires x < Columns && y < Rows
    ensures Advance(x, y).0 < Columns && Advance(x, y).1 < Rows
  {
  }

  /** The cursor after drawing `n` characters from (`x`, `y`). */
  function Cursor(n: nat, x: Byte, y: Byte): (Byte, Byte) {
    if n == 0 then (x, y) else var c := Cursor(n - 1, x, y); Advance(c.0, c.1)
  }

  /** The row `print` and `printn` return: one line below the cursor. */
  function NewLine(y: Byte): Byte {
    CheckScroll(Wrap8(y as int + 1))
  }

  /** A cursor that starts on the screen stays on it, however much is drawn. */
  lemma {:induction false} CursorOnScreen(n: nat, x: Byte, y: Byte)
    requires x < Columns && y < Rows
    ensures Cursor(n, x, y).0 < Columns && Cursor(n, x, y).1 < Rows
    ensures NewLine(Cursor(n, x, y).1) < Rows
    decreases n
  {
    var c := Cursor(n, x, y);
    if n > 0 {
      CursorOnScreen(n - 1, x, y);
      var c' := Cursor(n - 1, x, y);
      AdvanceOnScreen(c'.0, c'.1);
    }
    assert c.1 < Rows;
  }

  /** `print`: draw the C string `t` from (`x`, `y`) and return the row of
      the next line. */
  method Print(t: seq<Byte>, x: Byte, y: Byte) returns (r: Byte)
    requires Nul in t
    ensures r == NewLine(Cursor(StrLen(t), x, y).1)
    ensures x < Columns && y < Rows ==> r < Rows
  {
    var cx, cy := x, y;
    var i := 0;
    while t[i] != Nul
      invariant 0 <= i <= StrLen(t)
      invariant (cx, cy) == Cursor(i, x, y)
      decreases StrLen(t) - i
    {
      cx := Wrap8(cx as int + 1);
      if cx == Columns {
        cx := 0;
        cy := Wrap8(cy as int + 1);
      }
      cy := CheckScroll(cy);
      i := i + 1;
    }
    cy := Wrap8(cy as int + 1);
    cy := CheckScroll(cy);
    r := cy;
    if x < Columns && y < Rows {
      CursorOnScreen(i, x, y);
    }
  }

  /** `printn`: draw the first `n` bytes of `t` from (`x`, `y`), zero bytes
      included, and return the row of the next line. */
  method Printn(t: seq<Byte>, n: Byte, x: Byte, y: Byte) returns (r: Byte)
    requires n <= |t|
    ensures r == NewLine(Cursor(n, x, y).1)
    ensures x < Columns && y < Rows ==> r < Rows
  {
    var cx, cy := x, y;
    var left := n;
    while left != 0
      invariant 0 <= left <= n
      invariant (cx, cy) == Cursor(n - left, x, y)
    {
      cx := Wrap8(cx as int + 1);
      if cx == Columns {
        cx := 0;
        cy := Wrap8(cy as int + 1);
      }
      cy := CheckScroll(cy);
      left := left - 1;
    }
    cy := Wrap8(cy as int + 1);
    cy := CheckScroll(cy);
    r := cy;
    if x < Columns && y < Rows {
      CursorOnScreen(n, x, y);
    }
  }
}
