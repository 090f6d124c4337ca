/** Which summary statistics to report beyond the fixed ones: the
    split-incompatibility thresholds (`SI-k`), the rare-split thresholds
    (`RSk`) and the compound statistics. The thresholds are read from a
    settings block as a brace list `{a|b|c}` or a range `(start:stop[:incr])`. */
module Parameters {
  import opened Exceptions
  import opened JavaText
  import opened Compound

  const SiKey: string := "split incompatibility thresholds"
  const RsKey: string := "rare splits thresholds"
  /** The keys of a settings block these parameters consume. */
  const ValidKeys: set<string> := {SiKey, RsKey}
  const DefaultSi: seq<int> := [1, 2]
  const DefaultRs: seq<int> := [1]

  /** A settings block: named text fields. Reading the parameters removes
      the fields it has processed. */
  class Block {
    var fields: map<string, string>

    constructor (fields: map<string, string>)
      ensures this.fields == fields
    {
      this.fields := fields;
    }

    method RemoveField(key: string)
      modifies this
      ensures fields == old(fields) - {key}
    {
      fields := fields - {key};
    }
  }

  // ----- parsing threshold lists -----

  /** `Integer.valueOf(s)`, which throws NumberFormatException on bad text. */
  function IntegerValueOf(s: string): (r: Result<int>)
    ensures r.Ok? <==> ParseInt(s).Some?
    ensures r.Ok? ==> r.value == ParseInt(s).value && IsInt32(r.value)
    ensures r.Err? ==> r.error == NumberFormat(s)
  {
    match ParseInt(s)
    case None => Err(NumberFormat(s))
    case Some(n) => Ok(n)
  }

  /** The result of `Integer.valueOf` on each token. */
  function ValueOfEach(tokens: seq<string>): (r: seq<Result<int>>)
    ensures |r| == |tokens| && forall i :: 0 <= i < |tokens| ==> r[i] == IntegerValueOf(tokens[i])
  {
    seq(|tokens|, i requires 0 <= i < |tokens| => IntegerValueOf(tokens[i]))
  }

  /** The first `open` comes before the first `close`, and both occur. */
  predicate Enclosed(str: string, open: char, close: char)
  {
    var o, c := IndexOf(str, open), IndexOf(str, close);
    o >= 0 && c >= 0 && c > o
  }

  /** The text strictly between the first `open` and the first `close`. */
  function Inside(str: string, open: char, close: char): string
    requires Enclosed(str, open, close)
  {
    str[IndexOf(str, open) + 1..IndexOf(str, close)]
  }

  /** The brace form `{a|b|c}`: each `|`-separated token parsed as an int,
      in order; the first token that is not an int throws. */
  function BraceList(str: string): Result<seq<int>>
    requires Enclosed(str, '{', '}')
  {
    Collect(ValueOfEach(Split(Inside(str, '{', '}'), {'|'})))
  }

  /** The length of the range `(start:stop:incr)` as Java computes it:
      `(stop - start) / incr + 1` in wrapping 32-bit arithmetic with
      truncating division. */
  function RangeLength(start: int, stop: int, incr: int): int
    requires incr != 0
  {
    Wrap32(JavaDiv(Wrap32(stop - start), incr) + 1)
  }

  /** `n` values from `start` on, stepping by `incr` in wrapping 32-bit
      arithmetic. */
  function Progression(start: int, incr: int, n: nat): (r: seq<int>)
    ensures |r| == n && forall i :: 0 <= i < n ==> r[i] == Wrap32(start + i * incr)
  {
    seq(n, i requires 0 <= i < n => Wrap32(start + i * incr))
  }

  /** The step of a range: 1 when only start and stop are given, otherwise
      the third token (any further tokens are ignored). */
  function RangeStep(tokens: seq<string>): Result<int>
    requires |tokens| >= 2
  {
    if |tokens| == 2 then Ok(1) else IntegerValueOf(tokens[2])
  }

  /** The range form `(start:stop[:incr])`, with the exceptions Java
      throws: a missing start or stop token is an index out of bounds, a
      zero step an arithmetic exception and a negative length a negative
      array size. */
  function ParenRange(str: string): Result<seq<int>>
    requires Enclosed(str, '(', ')')
  {
    var tokens := Split(Inside(str, '(', ')'), {':'});
    if |tokens| == 0 then Err(IndexOutOfBounds(0))
    else
      match IntegerValueOf(tokens[0])
      case Err(e) => Err(e)
      case Ok(start) =>
        if |tokens| == 1 then Err(IndexOutOfBounds(1))
        else
          match IntegerValueOf(tokens[1])
          case Err(e) => Err(e)
          case Ok(stop) =>
            match RangeStep(tokens)
            case Err(e) => Err(e)
            case Ok(incr) =>
              if incr == 0 then Err(Arithmetic)
              else
                var n := RangeLength(start, stop, incr);
                if n < 0 then Err(NegativeArraySize(n)) else Ok(Progression(start, incr, n))
  }

  function ThresholdError(str: string): string
  {
    "Could not parse threshold values from '" + str + "'"
  }

  /** `parseIntSpecification(str)`: the brace form when `{` opens before
      `}` closes, else the range form when `(` opens before `)` closes,
      else a RuntimeException quoting the text. */
  function IntSpecification(str: string): Result<seq<int>>
  {
    if Enclosed(str, '{', '}') then BraceList(str)
    else if Enclosed(str, '(', ')') then ParenRange(str)
    else Err(Runtime(ThresholdError(str)))
  }

  /** The brace-form loop: parses the tokens into an array, in order. */
  method ParseTokens(tokens: seq<string>) returns (r: Result<seq<int>>)
    ensures r == Collect(ValueOfEach(tokens))
  {
    var intArray := new int[|tokens|];
    ghost var results := ValueOfEach(tokens);
    var i := 0;
    while i < |tokens|
      invariant 0 <= i <= |tokens|
      invariant Collect(results[..i]) == Ok(intArray[..i])
    {
      var v := IntegerValueOf(tokens[i]);
      assert results[..i + 1][..i] == results[..i] && results[..i + 1][i] == v;
      if v.Err? {
        CollectStopsAtError(results, i + 1);
        return Err(v.error);
      }
      intArray[i] := v.value;
      assert intArray[..i + 1] == intArray[..i] + [v.value];
      i := i + 1;
    }
    assert results[..i] == results && intArray[..i] == intArray[..];
    r := Ok(intArray[..]);
  }

  /** The range-form loop: `x` starts at `start` and steps by `incr`,
      wrapping as Java's `int` does. */
  method FillProgression(intArray: array<int>, start: int, incr: int)
    requires IsInt32(start)
    modifies intArray
    ensures intArray[..] == Progression(start, incr, intArray.Length)
  {
    var x := start;
    var i := 0;
    while i < intArray.Length
      invariant 0 <= i <= intArray.Length
      invariant x == Wrap32(start + i * incr)
      invariant forall k :: 0 <= k < i ==> intArray[k] == Wrap32(start + k * incr)
    {
      intArray[i] := x;
      WrapAdd(start + i * incr, incr);
      assert start + i * incr + incr == start + (i + 1) * incr;
      x := Wrap32(x + incr);
      i := i + 1;
    }
  }

  /** The range form of `parseIntSpecification`. */
  method ParseRange(str: string) returns (r: Result<seq<int>>)
    requires Enclosed(str, '(', ')')
    ensures r == ParenRange(str)
  {
    var tokens := Split(str[IndexOf(str, '(') + 1..IndexOf(str, ')')], {':'});
    if |tokens| == 0 {
      return Err(IndexOutOfBounds(0));
    }
    var start := IntegerValueOf(tokens[0]);
    if start.Err? {
      return Err(start.error);
    }
    if |tokens| == 1 {
      return Err(IndexOutOfBounds(1));
    }
    var stop := IntegerValueOf(tokens[1]);
    if stop.Err? {
      return Err(stop.error);
    }
    var incr := RangeStep(tokens);
    if incr.Err? {
      return Err(incr.error);
    }
    if incr.value == 0 {
      return Err(Arithmetic);
    }
    var n := Wrap32(JavaDiv(Wrap32(stop.value - start.value), incr.value) + 1);
    if n < 0 {
      return Err(NegativeArraySize(n));
    }
    var intArray := new int[n];
    FillProgression(intArray, start.value, incr.value);
    return Ok(intArray[..]);
  }

  /** `parseIntSpecification`: braces first, then parentheses. */
  method ParseIntSpecification(str: string) returns (r: Result<seq<int>>)
    ensures r == IntSpecification(str)
  {
    var open := IndexOf(str, '{');
    var close := IndexOf(str, '}');
    if open >= 0 && close >= 0 && close > open {
      var tokens := Split(str[open + 1..close], {'|'});
      r := ParseTokens(tokens);
      return;
    }
    open := IndexOf(str, '(');
    close := IndexOf(str, ')');
    if open >= 0 && close >= 0 && close > open {
      r := ParseRange(str);
      return;
    }
    return Err(Runtime(ThresholdError(str)));
  }

  // ----- properties of the threshold syntax -----

  /** The text of a list of ints. */
  function IntTexts(xs: seq<int>): (r: seq<string>)
    ensures |r| == |xs| && forall i :: 0 <= i < |xs| ==> r[i] == IntToString(xs[i])
  {
    seq(|xs|, i requires 0 <= i < |xs| => IntToString(xs[i]))
  }

  /** Anything but a digit, a minus sign or the separator is absent from
      the `sep`-joined texts of some ints. */
  lemma IntListAvoids(xs: seq<int>, sep: char, c: char)
    requires xs != [] && !IsDigit(c) && c != '-' && c != sep
    ensures c !in Join(IntTexts(xs), sep)
  {
    forall k | 0 <= k < |xs|
      ensures c !in IntTexts(xs)[k]
    {
      IntTextAvoids(xs[k], c);
    }
    JoinAvoids(IntTexts(xs), sep, c);
  }

  /** Text between a first `open` and a first `close`. */
  lemma BracketedText(pre: string, open: char, body: string, close: char, post: string)
    requires open != close && open !in pre && close !in pre && close !in body
    ensures Enclosed(pre + [open] + body + [close] + post, open, close)
    ensures Inside(pre + [open] + body + [close] + post, open, close) == body
  {
    var str := pre + [open] + body + [close] + post;
    assert str[..|pre|] == pre;
    IndexOfAt(str, open, |pre|);
    assert str[..|pre| + 1 + |body|] == pre + [open] + body;
    IndexOfAt(str, close, |pre| + 1 + |body|);
    assert str[|pre| + 1..|pre| + 1 + |body|] == body;
  }

  /** The texts of 32-bit ints parse back as those ints. */
  lemma IntTextsParse(xs: seq<int>)
    requires forall i :: 0 <= i < |xs| ==> IsInt32(xs[i])
    ensures Collect(ValueOfEach(IntTexts(xs))) == Ok(xs)
  {
    var results := ValueOfEach(IntTexts(xs));
    forall i | 0 <= i < |xs|
      ensures results[i] == Ok(xs[i])
    {
      ParsePrintedInt(xs[i]);
    }
    CollectShape(results);
    assert Collect(results).value == xs;
  }

  /** A brace list of ints reads back as those ints, whatever follows it
      and whatever precedes it that holds no brace: a brace list wins over
      a range anywhere in the text. */
  lemma BraceListRoundTrip(pre: string, xs: seq<int>, post: string)
    requires xs != [] && forall i :: 0 <= i < |xs| ==> IsInt32(xs[i])
    requires '{' !in pre && '}' !in pre
    ensures IntSpecification(pre + "{" + Join(IntTexts(xs), '|') + "}" + post) == Ok(xs)
  {
    var body := Join(IntTexts(xs), '|');
    IntListAvoids(xs, '|', '}');
    BracketedText(pre, '{', body, '}', post);
    forall k | 0 <= k < |xs|
      ensures '|' !in IntTexts(xs)[k]
    {
      IntTextAvoids(xs[k], '|');
    }
    IntTextAvoids(xs[|xs| - 1], '|');
    SplitOfJoin(IntTexts(xs), '|');
    IntTextsParse(xs);
  }

  /** Without a brace pair or a parenthesis pair the text is refused with a
      RuntimeException quoting it, and that is the only way a RuntimeException
      arises. */
  lemma RuntimeOnlyWhenUnbracketed(str: string)
    ensures IntSpecification(str) == Err(Runtime(ThresholdError(str))) <==>
      !Enclosed(str, '{', '}') && !Enclosed(str, '(', ')')
    ensures IntSpecification(str).Err? && IntSpecification(str).error.Runtime? ==>
      !Enclosed(str, '{', '}') && !Enclosed(str, '(', ')')
  {
    if Enclosed(str, '{', '}') {
      CollectShape(ValueOfEach(Split(Inside(str, '{', '}'), {'|'})));
    }
  }

  /** A parenthesised text without braces is read as a range. */
  lemma RangeFormApplies(body: string)
    requires '{' !in body && ')' !in body
    ensures Enclosed("(" + body + ")", '(', ')') && Inside("(" + body + ")", '(', ')') == body
    ensures IntSpecification("(" + body + ")") == ParenRange("(" + body + ")")
  {
    BracketedText([], '(', body, ')', []);
    assert [] + ['('] + body + [')'] + [] == "(" + body + ")";
    IndexOfIsFirst("(" + body + ")", '{');
  }

  /** The texts of some ints joined by `:`, which are the range's tokens. */
  lemma RangeTokens(xs: seq<int>)
    requires xs != []
    ensures '{' !in Join(IntTexts(xs), ':') && ')' !in Join(IntTexts(xs), ':')
    ensures Split(Join(IntTexts(xs), ':'), {':'}) == IntTexts(xs)
  {
    IntListAvoids(xs, ':', '{');
    IntListAvoids(xs, ':', ')');
    forall k | 0 <= k < |xs|
      ensures ':' !in IntTexts(xs)[k]
    {
      IntTextAvoids(xs[k], ':');
    }
    IntTextAvoids(xs[|xs| - 1], ':');
    SplitOfJoin(IntTexts(xs), ':');
  }

  /** The text `(start:stop:incr)` of three ints. */
  function RangeText(start: int, stop: int, incr: int): string
  {
    "(" + Join(IntTexts([start, stop, incr]), ':') + ")"
  }

  /** A range given as three ints gives the progression of the computed
      length, or the exception for a zero step or a negative length. */
  lemma RangeTextParses(start: int, stop: int, incr: int)
    requires IsInt32(start) && IsInt32(stop) && IsInt32(incr)
    ensures IntSpecification(RangeText(start, stop, incr)) ==
      if incr == 0 then Err(Arithmetic)
      else if RangeLength(start, stop, incr) < 0 then Err(NegativeArraySize(RangeLength(start, stop, incr)))
      else Ok(Progression(start, incr, RangeLength(start, stop, incr)))
  {
    var texts := IntTexts([start, stop, incr]);
    RangeTokens([start, stop, incr]);
    RangeFormApplies(Join(texts, ':'));
    ParsePrintedInt(start);
    ParsePrintedInt(stop);
    ParsePrintedInt(incr);
  }

  /** A range of two ints steps by 1: `(start:stop)` means `(start:stop:1)`. */
  lemma RangeStepDefaultsToOne(start: int, stop: int)
    requires IsInt32(start) && IsInt32(stop)
    ensures IntSpecification("(" + Join(IntTexts([start, stop]), ':') + ")") ==
      IntSpecification(RangeText(start, stop, 1))
  {
    var texts := IntTexts([start, stop]);
    RangeTokens([start, stop]);
    RangeFormApplies(Join(texts, ':'));
    ParsePrintedInt(start);
    ParsePrintedInt(stop);
    RangeTextParses(start, stop, 1);
  }

  predicate Within(x: int, a: int, b: int)
  {
    if a <= b then a <= x <= b else b <= x <= a
  }

  lemma {:induction false} MulMono(i: int, j: int, a: int)
    requires 0 <= i <= j && a > 0
    ensures i * a <= j * a
    decreases j - i
  {
    if i < j {
      MulMono(i, j - 1, a);
      assert j * a == (j - 1) * a + a;
    }
  }

  /** What truncating division promises, in terms of magnitudes: `e`
      holds `q` whole steps of `a` and less than one more. */
  lemma WholeSteps(e: int, a: int, q: int, s: int)
    requires a > 0 && e >= 0 && e == q * a + s && 0 <= s < a
    ensures 0 <= q <= e && (q + 1) * a > e
    ensures forall i :: 0 <= i <= q ==> 0 <= i * a <= e
  {
    if q < 0 {
      assert (-q) * a == -(q * a);
      MulMono(1, -q, a);
      assert false;
    }
    if q > 0 {
      MulMono(1, a, q);
      assert a * q == q * a;
    }
    forall i | 0 <= i <= q
      ensures 0 <= i * a <= e
    {
      MulMono(0, i, a);
      MulMono(i, q, a);
    }
    assert (q + 1) * a == q * a + a;
  }

  /** The steps of a range that counts up (or, with `incr` negative,
      down) from start: `q` of them stay within stop, the next passes it. */
  lemma StepsToStop(start: int, stop: int, incr: int)
    requires incr != 0
    requires (start <= stop && incr > 0) || (stop <= start && incr < 0)
    ensures 0 <= JavaDiv(stop - start, incr) <= (if stop >= start then stop - start else start - stop)
    ensures forall i :: 0 <= i <= JavaDiv(stop - start, incr) ==> Within(start + i * incr, start, stop)
    ensures !Within(start + (JavaDiv(stop - start, incr) + 1) * incr, start, stop)
  {
    if incr > 0 {
      StepsUp(start, stop, incr);
    } else {
      StepsDown(start, stop, incr);
    }
  }

  lemma StepsUp(start: int, stop: int, incr: int)
    requires start <= stop && incr > 0
    ensures 0 <= JavaDiv(stop - start, incr) <= stop - start
    ensures forall i :: 0 <= i <= JavaDiv(stop - start, incr) ==> start <= start + i * incr <= stop
    ensures start + (JavaDiv(stop - start, incr) + 1) * incr > stop
  {
    var d := stop - start;
    var q := JavaDiv(d, incr);
    WholeSteps(d, incr, q, d - q * incr);
  }

  lemma NegatedStep(i: int, incr: int)
    ensures i * (-incr) == -(i * incr)
  {
  }

  lemma StepsDown(start: int, stop: int, incr: int)
    requires stop <= start && incr < 0
    ensures 0 <= JavaDiv(stop - start, incr) <= start - stop
    ensures forall i :: 0 <= i <= JavaDiv(stop - start, incr) ==> stop <= start + i * incr <= start
    ensures start + (JavaDiv(stop - start, incr) + 1) * incr < stop
  {
    StepsUp(-start, -stop, -incr);
    JavaDivNegated(stop - start, incr);
    var q := JavaDiv(stop - start, incr);
    assert q == JavaDiv(-stop - -start, -incr);
    forall i | 0 <= i <= q
      ensures stop <= start + i * incr <= start
    {
      NegatedStep(i, incr);
    }
    NegatedStep(q + 1, incr);
  }

  /** When the step points from start toward stop and nothing wraps, the
      range lists `start, start + incr, ...` up to stop and stops before it
      would pass stop. */
  lemma ProgressionStaysWithin(start: int, stop: int, incr: int)
    requires IsInt32(start) && IsInt32(stop) && incr != 0
    requires -IntMax < stop - start < IntMax
    requires (start <= stop && incr > 0) || (stop <= start && incr < 0)
    ensures RangeLength(start, stop, incr) >= 1
    ensures forall i :: 0 <= i < RangeLength(start, stop, incr) ==>
      Progression(start, incr, RangeLength(start, stop, incr))[i] == start + i * incr
    ensures forall i :: 0 <= i < RangeLength(start, stop, incr) ==> Within(start + i * incr, start, stop)
    ensures !Within(start + RangeLength(start, stop, incr) * incr, start, stop)
  {
    StepsToStop(start, stop, incr);
    assert RangeLength(start, stop, incr) == JavaDiv(stop - start, incr) + 1;
  }

  // ----- the range check -----

  /** `max` after `max = Math.max(max, t)` over `xs`, from -1. */
  function MaxThreshold(xs: seq<int>): int
  {
    if xs == [] then -1
    else
      var m := MaxThreshold(xs[..|xs| - 1]);
      if m >= xs[|xs| - 1] then m else xs[|xs| - 1]
  }

  /** The largest threshold, or -1 when there is none. */
  lemma {:induction false} MaxThresholdIsMax(xs: seq<int>)
    ensures MaxThreshold(xs) >= -1 && forall i :: 0 <= i < |xs| ==> xs[i] <= MaxThreshold(xs)
    ensures MaxThreshold(xs) == -1 || exists i :: 0 <= i < |xs| && xs[i] == MaxThreshold(xs)
  {
    if xs != [] {
      var n := |xs| - 1;
      MaxThresholdIsMax(xs[..n]);
      assert forall i :: 0 <= i < n ==> xs[..n][i] == xs[i];
    }
  }

  method MaxOf(xs: seq<int>) returns (max: int)
    ensures max == MaxThreshold(xs)
  {
    max := -1;
    var i := 0;
    while i < |xs|
      invariant 0 <= i <= |xs|
      invariant max == MaxThreshold(xs[..i])
    {
      assert xs[..i + 1][..i] == xs[..i];
      max := if max >= xs[i] then max else xs[i];
      i := i + 1;
    }
    assert xs[..i] == xs;
  }

  function SiTooLarge(max: int, nTrees: int): string
  {
    "Split incompatibility threshold of " + IntToString(max) + " is too large for " + IntToString(nTrees) + " trees."
  }

  function RsTooLarge(max: int, nTrees: int): string
  {
    "Rare split threshold of " + IntToString(max) + " is too large for " + IntToString(nTrees) + " trees."
  }

  /** `rangeCheck(nTrees)` as written: `2*max` is an `int` product and wraps. */
  function RangeVerdictAsWritten(si: seq<int>, rs: seq<int>, nTrees: int): Outcome
  {
    var m := MaxThreshold(si);
    if Wrap32(2 * m) >= nTrees then Fail(IllegalArgument(SiTooLarge(m, nTrees)))
    else
      var m' := MaxThreshold(rs);
      if m' >= nTrees then Fail(IllegalArgument(RsTooLarge(m', nTrees))) else Pass
  }

  /** A split-incompatibility threshold of 2^30 with a single tree passes
      the range check as written, because `2*max` wraps to a negative `int`. */
  lemma RangeCheckOverflows()
    ensures RangeVerdictAsWritten([0x4000_0000], [], 1) == Pass
    ensures MaxThreshold([0x4000_0000]) * 2 >= 1
  {
    assert [0x4000_0000][..0] == [];
    assert MaxThreshold([0x4000_0000]) == 0x4000_0000;
    ModUnique(0x1_0000_0000, 1, 0, 0x1_0000_0000);
    assert Wrap32(2 * 0x4000_0000) == IntMin;
  }

  /** `rangeCheck(nTrees)` with `2*max` compared exactly, as intended:
      split-incompatibility thresholds must stay below half the trees and
      rare-split thresholds below the number of trees. */
  function RangeVerdict(si: seq<int>, rs: seq<int>, nTrees: int): Outcome
  {
    var m := MaxThreshold(si);
    if 2 * m >= nTrees then Fail(IllegalArgument(SiTooLarge(m, nTrees)))
    else
      var m' := MaxThreshold(rs);
      if m' >= nTrees then Fail(IllegalArgument(RsTooLarge(m', nTrees))) else Pass
  }

  /** The check passes exactly when every split-incompatibility threshold
      is below half the trees and every rare-split threshold below the
      number of trees (and the number of trees is not negative, since the
      running maximum starts at -1); the two differ only in wrapping. */
  lemma RangeVerdictPasses(si: seq<int>, rs: seq<int>, nTrees: int)
    ensures RangeVerdict(si, rs, nTrees) == Pass <==>
      && nTrees >= 0
      && (forall i :: 0 <= i < |si| ==> 2 * si[i] < nTrees)
      && (forall i :: 0 <= i < |rs| ==> rs[i] < nTrees)
    ensures IsInt32(2 * MaxThreshold(si)) ==> RangeVerdictAsWritten(si, rs, nTrees) == RangeVerdict(si, rs, nTrees)
  {
    MaxThresholdIsMax(si);
    MaxThresholdIsMax(rs);
  }

  // ----- the parameters object -----

  /** The thresholds field `key` asks for, or `default` when it is absent. */
  function FieldThresholds(fields: map<string, string>, key: string, default: seq<int>): Result<seq<int>>
  {
    if key in fields then IntSpecification(Trim(fields[key])) else Ok(default)
  }

  /** The thresholds a settings block asks for, each defaulting when its
      key is absent; the first threshold text that fails to parse throws. */
  function BlockThresholds(fields: map<string, string>): Result<(seq<int>, seq<int>)>
  {
    match FieldThresholds(fields, SiKey, DefaultSi)
    case Err(e) => Err(e)
    case Ok(si) =>
      match FieldThresholds(fields, RsKey, DefaultRs)
      case Err(e) => Err(e)
      case Ok(rs) => Ok((si, rs))
  }

  /** The fields left in a settings block once the parameters are read:
      each key is removed once its value has been parsed. */
  function BlockAfter(fields: map<string, string>): map<string, string>
  {
    if FieldThresholds(fields, SiKey, DefaultSi).Err? then fields
    else if FieldThresholds(fields, RsKey, DefaultRs).Err? then fields - {SiKey}
    else fields - ValidKeys
  }

  /** Reading the parameters leaves every other field of the block alone,
      and a block it reads successfully loses exactly its valid keys. */
  lemma BlockKeepsOtherFields(fields: map<string, string>)
    ensures forall k :: k in fields && k !in ValidKeys ==> k in BlockAfter(fields) && BlockAfter(fields)[k] == fields[k]
    ensures BlockAfter(fields).Keys <= fields.Keys
    ensures BlockThresholds(fields).Ok? ==> BlockAfter(fields).Keys == fields.Keys - ValidKeys
  {
  }

  /** A block without threshold fields gives the default thresholds. */
  lemma EmptyBlockDefaults(fields: map<string, string>)
    requires SiKey !in fields && RsKey !in fields
    ensures BlockThresholds(fields) == Ok(([1, 2], [1]))
    ensures BlockAfter(fields) == fields
  {
    assert fields - ValidKeys == fields;
  }

  /** Parses the trimmed value of field `key`, removing the field once it
      has parsed. */
  method TakeThresholds(block: Block, key: string) returns (r: Result<seq<int>>)
    requires key in block.fields
    modifies block
    ensures r == FieldThresholds(old(block.fields), key, [])
    ensures block.fields == if r.Err? then old(block.fields) else old(block.fields) - {key}
  {
    r := ParseIntSpecification(Trim(block.fields[key]));
    if r.Ok? {
      block.RemoveField(key);
    }
  }

  class SummaryStatParameters {
    var siThresholds: seq<int>
    var rsThresholds: seq<int>
    var compoundStats: seq<CompoundStat>

    /** The defaults: `SI-1`, `SI-2` and `RS1`, and no compound statistics. */
    constructor ()
      ensures siThresholds == [1, 2] && rsThresholds == [1] && compoundStats == []
    {
      siThresholds := DefaultSi;
      rsThresholds := DefaultRs;
      compoundStats := [];
    }

    /** The parameters a settings block asks for, removing each threshold
        field from the block once it is parsed. */
    static method FromBlock(block: Block) returns (r: Result<SummaryStatParameters>)
      modifies block
      ensures r.Ok? <==> BlockThresholds(old(block.fields)).Ok?
      ensures r.Err? ==> r.error == BlockThresholds(old(block.fields)).error
      ensures r.Ok? ==> fresh(r.value) && r.value.compoundStats == []
      ensures r.Ok? ==> (r.value.siThresholds, r.value.rsThresholds) == BlockThresholds(old(block.fields)).value
      ensures block.fields == BlockAfter(old(block.fields))
    {
      ghost var fields := block.fields;
      ghost var siR := FieldThresholds(fields, SiKey, DefaultSi);
      ghost var rsR := FieldThresholds(fields, RsKey, DefaultRs);
      assert BlockThresholds(fields) ==
        if siR.Err? then Err(siR.error) else if rsR.Err? then Err(rsR.error) else Ok((siR.value, rsR.value));
      assert BlockAfter(fields) ==
        if siR.Err? then fields else if rsR.Err? then fields - {SiKey} else fields - ValidKeys;
      var p := new SummaryStatParameters();
      if SiKey in block.fields {
        var si := TakeThresholds(block, SiKey);
        if si.Err? {
          return Err(si.error);
        }
        p.siThresholds := si.value;
      }
      assert block.fields == if SiKey in fields then fields - {SiKey} else fields;
      assert p.siThresholds == siR.value;
      if RsKey in block.fields {
        assert block.fields[RsKey] == fields[RsKey];
        var rs := TakeThresholds(block, RsKey);
        if rs.Err? {
          return Err(rs.error);
        }
        p.rsThresholds := rs.value;
      }
      assert block.fields == fields - ValidKeys;
      return Ok(p);
    }

    /** `addCompoundStat`: appended, so iteration is in insertion order. */
    method AddCompoundStat(cStat: CompoundStat)
      modifies this`compoundStats
      ensures compoundStats == old(compoundStats) + [cStat]
    {
      compoundStats := compoundStats + [cStat];
    }

    /** `rangeCheck(nTrees)`, with the doubled maximum compared exactly. */
    method RangeCheck(nTrees: int) returns (o: Outcome)
      ensures o == RangeVerdict(siThresholds, rsThresholds, nTrees)
    {
      var max := MaxOf(siThresholds);
      if 2 * max >= nTrees {
        return Fail(IllegalArgument(SiTooLarge(max, nTrees)));
      }
      max := MaxOf(rsThresholds);
      if max >= nTrees {
        return Fail(IllegalArgument(RsTooLarge(max, nTrees)));
      }
      return Pass;
    }
  }
}
