/** The parts of `java.lang.String`, `Integer.valueOf` and Java's integer
    division that the modelled code relies on, with their Java semantics
    written out (for instance: `split` drops trailing empty strings, `/`
    truncates toward zero). */
module JavaText {
  import opened Exceptions

  /** `s.indexOf(c)`: a position of `c`, or -1; `IndexOfIsFirst` shows it
      is the first one and that -1 means `c` does not occur. */
  function IndexOf(s: string, c: char): (r: int)
    ensures -1 <= r < |s|
    ensures r >= 0 ==> s[r] == c
  {
    if s == [] then -1
    else if s[0] == c then 0
    else
      var r := IndexOf(s[1..], c);
      if r == -1 then -1 else r + 1
  }

  lemma {:induction false} IndexOfIsFirst(s: string, c: char)
    ensures var r := IndexOf(s, c);
      && (forall k :: 0 <= k < r ==> s[k] != c)
      && (r == -1 <==> c !in s)
  {
    if s != [] && s[0] != c {
      IndexOfIsFirst(s[1..], c);
      assert s == [s[0]] + s[1..];
    }
  }

  predicate StartsWith(s: string, prefix: string)
  {
    |prefix| <= |s| && s[..|prefix|] == prefix
  }

  predicate EndsWith(s: string, suffix: string)
  {
    |suffix| <= |s| && s[|s| - |suffix|..] == suffix
  }

  /** The characters `String.trim` removes: every code point up to U+0020. */
  predicate TrimSpace(c: char)
  {
    c <= ' '
  }

  /** The characters of the regular-expression class `\s`. */
  predicate RegexSpace(c: char)
  {
    c == ' ' || c == '\t' || c == '\n' || c == '\U{B}' || c == '\U{C}' || c == '\r'
  }

  /** `s` without its leading `\s` characters. */
  function TrimStart(s: string): (r: string)
    ensures |r| <= |s| && r == s[|s| - |r|..]
    ensures r == [] || !RegexSpace(r[0])
  {
    if s != [] && RegexSpace(s[0]) then TrimStart(s[1..]) else s
  }

  /** `s` without its trailing `\s` characters. */
  function TrimEnd(s: string): (r: string)
    ensures |r| <= |s| && r == s[..|r|]
    ensures r == [] || !RegexSpace(r[|r| - 1])
  {
    if s != [] && RegexSpace(s[|s| - 1]) then TrimEnd(s[..|s| - 1]) else s
  }

  /** `s.trim()`: the characters up to U+0020 removed from both ends. */
  function Trim(s: string): string
    decreases |s|
  {
    if s != [] && TrimSpace(s[0]) then Trim(s[1..])
    else if s != [] && TrimSpace(s[|s| - 1]) then Trim(s[..|s| - 1])
    else s
  }

  lemma TrimmedIsFixed(s: string)
    requires s == [] || (!TrimSpace(s[0]) && !TrimSpace(s[|s| - 1]))
    ensures Trim(s) == s
  {
  }

  /** The pieces between delimiters, empty pieces included (one more piece
      than there are delimiters). */
  function Pieces(s: string, delims: set<char>): (r: seq<string>)
    ensures |r| >= 1
  {
    if s == [] then [""]
    else
      var rest := Pieces(s[1..], delims);
      if s[0] in delims then [""] + rest else [[s[0]] + rest[0]] + rest[1..]
  }

  function DropTrailingEmpty(ps: seq<string>): (r: seq<string>)
    ensures |r| <= |ps| && r == ps[..|r|]
    ensures r == [] || r[|r| - 1] != ""
    ensures forall i :: |r| <= i < |ps| ==> ps[i] == ""
  {
    if ps == [] || ps[|ps| - 1] != "" then ps else DropTrailingEmpty(ps[..|ps| - 1])
  }

  predicate HasDelimiter(s: string, delims: set<char>)
  {
    exists i :: 0 <= i < |s| && s[i] in delims
  }

  /** `s.split(regex)` for a regex matching any one of the characters in
      `delims`: when nothing matches the result is `[s]`; otherwise the
      pieces, with the trailing empty ones removed. */
  function Split(s: string, delims: set<char>): seq<string>
  {
    if HasDelimiter(s, delims) then DropTrailingEmpty(Pieces(s, delims)) else [s]
  }

  /** `s.split("\\s*:\\s*")`: the colon separator absorbs the whitespace
      on both of its sides. */
  function SplitColonSpaced(s: string): seq<string>
  {
    if ':' in s then
      var ps := Pieces(s, {':'});
      DropTrailingEmpty(seq(|ps|, i requires 0 <= i < |ps| => SpacedPiece(ps, i)))
    else [s]
  }

  /** Piece `i` with the blanks a neighbouring separator absorbs removed. */
  function SpacedPiece(ps: seq<string>, i: nat): string
    requires i < |ps|
  {
    var p := if i > 0 then TrimStart(ps[i]) else ps[i];
    if i < |ps| - 1 then TrimEnd(p) else p
  }

  /** When the spaced pieces are `qs` and the last is not empty, the split
      is `qs`. */
  lemma SplitColonSpacedIs(s: string, qs: seq<string>)
    requires ':' in s
    requires |qs| == |Pieces(s, {':'})| && qs != [] && qs[|qs| - 1] != ""
    requires forall i :: 0 <= i < |qs| ==> SpacedPiece(Pieces(s, {':'}), i) == qs[i]
    ensures SplitColonSpaced(s) == qs
  {
    var ps := Pieces(s, {':'});
    assert seq(|ps|, i requires 0 <= i < |ps| => SpacedPiece(ps, i)) == qs;
  }

  /** The strings of `xs` joined with separator `sep`. */
  function Join(xs: seq<string>, sep: char): (r: string)
    requires xs != []
  {
    if |xs| == 1 then xs[0] else xs[0] + [sep] + Join(xs[1..], sep)
  }

  /** Splitting a joined sequence on its separator gives the sequence back,
      when no element contains the separator. */
  lemma {:induction false} PiecesOfJoin(xs: seq<string>, sep: char)
    requires xs != []
    requires forall i :: 0 <= i < |xs| ==> sep !in xs[i]
    ensures Pieces(Join(xs, sep), {sep}) == xs
  {
    if |xs| == 1 {
      PiecesWithoutDelimiter(xs[0], {sep});
    } else {
      PiecesOfJoin(xs[1..], sep);
      PiecesAfterWord(xs[0], sep, Join(xs[1..], sep), {sep});
    }
  }

  /** A string with none of the delimiters is one piece. */
  lemma {:induction false} PiecesWithoutDelimiter(s: string, delims: set<char>)
    requires forall i :: 0 <= i < |s| ==> s[i] !in delims
    ensures Pieces(s, delims) == [s]
  {
    if s != [] {
      PiecesWithoutDelimiter(s[1..], delims);
      assert [s[0]] + s[1..] == s;
    }
  }

  /** A delimiter-free word before a delimiter is the first piece. */
  lemma {:induction false} PiecesAfterWord(w: string, c: char, t: string, delims: set<char>)
    requires c in delims
    requires forall i :: 0 <= i < |w| ==> w[i] !in delims
    ensures Pieces(w + [c] + t, delims) == [w] + Pieces(t, delims)
  {
    if w == [] {
      assert w + [c] + t == [c] + t;
      assert ([c] + t)[1..] == t;
    } else {
      assert (w + [c] + t)[1..] == w[1..] + [c] + t;
      PiecesAfterWord(w[1..], c, t, delims);
      assert [w[0]] + w[1..] == w;
    }
  }

  lemma JoinHasDelimiter(xs: seq<string>, sep: char)
    requires |xs| >= 2
    ensures HasDelimiter(Join(xs, sep), {sep})
  {
    assert Join(xs, sep)[|xs[0]|] == sep;
  }

  /** `Java String.split` inverts `Join` when no element contains the
      separator and the last element is not empty. */
  lemma SplitOfJoin(xs: seq<string>, sep: char)
    requires xs != [] && xs[|xs| - 1] != ""
    requires forall i :: 0 <= i < |xs| ==> sep !in xs[i]
    ensures Split(Join(xs, sep), {sep}) == xs
  {
    PiecesOfJoin(xs, sep);
    if |xs| >= 2 {
      JoinHasDelimiter(xs, sep);
    }
  }

  predicate IsDigit(c: char)
  {
    '0' <= c <= '9'
  }

  function DigitsValue(ds: string): (n: nat)
    requires forall i :: 0 <= i < |ds| ==> IsDigit(ds[i])
  {
    if ds == [] then 0
    else
      assert IsDigit(ds[|ds| - 1]);
      10 * DigitsValue(ds[..|ds| - 1]) + (ds[|ds| - 1] as int - '0' as int)
  }

  const IntMin: int := -0x8000_0000
  const IntMax: int := 0x7FFF_FFFF

  predicate IsInt32(n: int)
  {
    IntMin <= n <= IntMax
  }

  /** `Integer.valueOf(s)` (decimal, ASCII digits): an optional sign and at
      least one digit, no spaces, and the value must fit in 32 bits;
      anything else is a NumberFormatException. */
  function ParseInt(s: string): (r: Option<int>)
    ensures r.Some? ==> IsInt32(r.value)
  {
    var digits := if s != [] && (s[0] == '-' || s[0] == '+') then s[1..] else s;
    if digits == [] || exists i :: 0 <= i < |digits| && !IsDigit(digits[i]) then None
    else
      var magnitude := DigitsValue(digits);
      var v: int := if s[0] == '-' then 0 - magnitude as int else magnitude;
      if IsInt32(v) then Some(v) else None
  }

  function NatToString(n: nat): (r: string)
    ensures r != [] && forall i :: 0 <= i < |r| ==> IsDigit(r[i])
    ensures DigitsValue(r) == n
  {
    var d := [('0' as int + n % 10) as char];
    if n < 10 then d
    else
      var r := NatToString(n / 10) + d;
      assert r[..|r| - 1] == NatToString(n / 10);
      r
  }

  /** `Integer.toString(n)` / string concatenation of an int. */
  function IntToString(n: int): string
  {
    if n < 0 then "-" + NatToString(-n) else NatToString(n)
  }

  /** Parsing an int's decimal text gives that int back. */
  lemma ParsePrintedInt(n: int)
    requires IsInt32(n)
    ensures ParseInt(IntToString(n)) == Some(n)
  {
    if n < 0 {
      assert IntToString(n)[1..] == NatToString(-n);
    }
  }

  /** Java's `a / b` on ints: the quotient truncated toward zero. */
  function JavaDiv(a: int, b: int): (q: int)
    requires b != 0
    ensures var r := a - q * b;
      (r == 0 || (r > 0 <==> a > 0)) && (if r >= 0 then r else -r) < (if b >= 0 then b else -b)
  {
    TruncatedRemainder(a, b);
    var q0 := (if a >= 0 then a else -a) / (if b >= 0 then b else -b);
    if (a >= 0) == (b > 0) then q0 else -q0
  }

  /** Negating both operands leaves a truncated quotient unchanged. */
  lemma JavaDivNegated(a: int, b: int)
    requires b != 0
    ensures JavaDiv(-a, -b) == JavaDiv(a, b)
  {
    if a == 0 {
      assert 0 / (if b >= 0 then b else -b) == 0;
    }
  }

  /** The remainder left by the truncated quotient has the sign of `a` and
      is smaller than `b` in magnitude. */
  lemma TruncatedRemainder(a: int, b: int)
    requires b != 0
    ensures var m, n := (if a >= 0 then a else -a), (if b >= 0 then b else -b);
      var q := if (a >= 0) == (b > 0) then m / n else -(m / n);
      var r := a - q * b;
      (r == 0 || (r > 0 <==> a > 0)) && (if r >= 0 then r else -r) < n
  {
    var m, n := (if a >= 0 then a else -a), (if b >= 0 then b else -b);
    var q0 := m / n;
    assert 0 <= m - q0 * n < n;
    if a >= 0 && b > 0 {
      assert a - q0 * b == m - q0 * n;
    } else if a >= 0 {
      assert a - (-q0) * b == m - q0 * n;
    } else if b > 0 {
      assert a - (-q0) * b == -(m - q0 * n);
    } else {
      assert a - q0 * b == -(m - q0 * n);
    }
  }

  /** The `int` Java keeps of the integer `n`: arithmetic on `int` wraps
      around modulo 2^32. */
  function Wrap32(n: int): (r: int)
    ensures IsInt32(r)
    ensures IsInt32(n) ==> r == n
  {
    (n - IntMin) % 0x1_0000_0000 + IntMin
  }

  lemma {:induction false} MulAtLeast(a: int, m: int)
    requires a >= 1 && m > 0
    ensures a * m >= m
    decreases a
  {
    if a > 1 {
      MulAtLeast(a - 1, m);
      assert a * m == (a - 1) * m + m;
    }
  }

  lemma ModUnique(y: int, q: int, r: int, m: int)
    requires m > 0 && 0 <= r < m && y == q * m + r
    ensures y % m == r
  {
    var q', r' := y / m, y % m;
    assert y == q' * m + r';
    assert q * m - q' * m == r' - r;
    if q > q' {
      assert (q - q') * m == q * m - q' * m;
      MulAtLeast(q - q', m);
      assert false;
    } else if q < q' {
      assert (q' - q) * m == q' * m - q * m;
      MulAtLeast(q' - q, m);
      assert false;
    }
  }

  /** Keeping only the `int` of an intermediate sum does not change the
      `int` of the final one: `x += incr` on a wrapped `x` stays in step
      with the exact sum. */
  lemma WrapAdd(a: int, b: int)
    ensures Wrap32(Wrap32(a) + b) == Wrap32(a + b)
  {
    var m := 0x1_0000_0000;
    var k, r := (a - IntMin) / m, (a - IntMin) % m;
    assert a - IntMin == k * m + r;
    var y := a + b - IntMin;
    var q, r2 := y / m, y % m;
    assert Wrap32(a) + b - IntMin == y - k * m;
    assert y - k * m == (q - k) * m + r2;
    ModUnique(y - k * m, q - k, r2, m);
  }

  /** The decimal text of an int is not empty and holds only digits and a
      minus sign. */
  lemma IntTextAvoids(n: int, c: char)
    requires !IsDigit(c) && c != '-'
    ensures IntToString(n) != [] && c !in IntToString(n)
  {
    var t := IntToString(n);
    if n < 0 {
      assert forall i :: 1 <= i < |t| ==> t[i] == NatToString(-n)[i - 1];
    }
  }

  /** A character in neither the separator nor any element is not in
      their join. */
  lemma {:induction false} JoinAvoids(xs: seq<string>, sep: char, c: char)
    requires xs != [] && c != sep
    requires forall k :: 0 <= k < |xs| ==> c !in xs[k]
    ensures c !in Join(xs, sep)
  {
    if |xs| > 1 {
      JoinAvoids(xs[1..], sep, c);
      assert c !in xs[1..][0];
    }
  }

  /** `indexOf` finds the first occurrence. */
  lemma IndexOfAt(s: string, c: char, k: int)
    requires 0 <= k < |s| && s[k] == c && c !in s[..k]
    ensures IndexOf(s, c) == k
  {
    IndexOfIsFirst(s, c);
  }
}
