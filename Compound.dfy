/** Compound statistics: a product of named statistics scaled by a
    coefficient, and a named sum of such products with a standard
    deviation, each parsed from and printed to text. Arithmetic on doubles
    is idealised as arithmetic on reals. */
module Compound {
  import opened Exceptions
  import opened JavaText
  import opened Statistics

  /** `Double.valueOf` and `Double.toString`, which are not part of this
      model: they enter as a given pair of conversions. */
  datatype DoubleText = DoubleText(parse: string -> Option<real>, show: real -> string)

  /** A coefficient times a product of statistics, named as
      `getStatByName` names them. */
  datatype CompoundCoefficient = CompoundCoefficient(coefficient: real, variables: seq<string>)

  /** The message for a coefficient text that is not a number. */
  function CoefficientError(input: string): string
  {
    "NumberFormatException trying to parse compound coefficient '" + input + "'"
  }

  /** What `new CompoundCoefficient(input)` produces: the input split on
      `*`; the first piece is the coefficient and the others, trimmed, are
      the variables in order. When the split leaves no piece at all the
      variable array gets length -1; a first piece that is not a number is
      refused with a message quoting the input. */
  function ParseCoefficient(input: string, d: DoubleText): (r: Result<CompoundCoefficient>)
  {
    var bits := Split(input, {'*'});
    if bits == [] then Err(NegativeArraySize(-1))
    else match d.parse(bits[0])
      case None => Err(IllegalArgument(CoefficientError(input)))
      case Some(x) => Ok(CompoundCoefficient(x, TrimmedTail(bits)))
  }

  /** The pieces after the first, each trimmed. */
  function TrimmedTail(bits: seq<string>): (r: seq<string>)
    requires bits != []
    ensures |r| == |bits| - 1 && forall i :: 0 <= i < |r| ==> r[i] == Trim(bits[i + 1])
  {
    seq(|bits| - 1, i requires 0 <= i < |bits| - 1 => Trim(bits[i + 1]))
  }

  /** `new CompoundCoefficient(input)`, filling the variable array in a
      loop. */
  method NewCoefficient(input: string, d: DoubleText) returns (r: Result<CompoundCoefficient>)
    ensures r == ParseCoefficient(input, d)
  {
    var bits := Split(input, {'*'});
    if |bits| == 0 {
      return Err(NegativeArraySize(-1));
    }
    var variables := new string[|bits| - 1];
    var parsed := d.parse(bits[0]);
    if parsed.None? {
      return Err(IllegalArgument(CoefficientError(input)));
    }
    FillVariables(variables, bits);
    return Ok(CompoundCoefficient(parsed.value, variables[..]));
  }

  /** The loop of the parsing constructor: variable `i` is piece `i + 1`,
      trimmed. */
  method FillVariables(variables: array<string>, bits: seq<string>)
    requires variables.Length == |bits| - 1
    modifies variables
    ensures variables[..] == TrimmedTail(bits)
  {
    var i := 0;
    while i < variables.Length
      invariant 0 <= i <= variables.Length
      invariant forall j :: 0 <= j < i ==> variables[j] == Trim(bits[j + 1])
    {
      variables[i] := Trim(bits[i + 1]);
      i := i + 1;
    }
  }

  /** `new CompoundCoefficient(vars, coefficient)`: both kept as given. */
  method CoefficientFromArray(vars: array<string>, coefficient: real) returns (c: CompoundCoefficient)
    ensures c.coefficient == coefficient && c.variables == vars[..]
  {
    c := CompoundCoefficient(coefficient, vars[..]);
  }

  /** A refused coefficient text is quoted whole at the end of the
      message. */
  lemma CoefficientErrorQuotesInput(input: string)
    ensures EndsWith(CoefficientError(input), "'" + input + "'")
  {
    var m := CoefficientError(input);
    var k := |"NumberFormatException trying to parse compound coefficient "|;
    assert m[k..] == "'" + input + "'";
  }

  /** The running product of `evaluate`: `x` times the values of `vars`,
      left to right; the first variable `getStatByName` refuses ends it with
      that error. */
  function Product(x: real, vars: seq<string>, h: HybridStats): Result<real>
    decreases |vars|
  {
    if vars == [] then Ok(x)
    else
      match Product(x, vars[..|vars| - 1], h)
      case Err(e) => Err(e)
      case Ok(p) =>
        match GetStatByName(h, vars[|vars| - 1])
        case Err(e) => Err(e)
        case Ok(v) => Ok(Times(p, v))
  }

  /** Java's `*` on doubles, idealised as `*` on reals. */
  function Times(a: real, b: real): real
  {
    a * b
  }

  /** `evaluate(stats)`, as a loop over the variables. */
  method EvaluateCoefficient(c: CompoundCoefficient, h: HybridStats) returns (r: Result<real>)
    ensures r == Product(c.coefficient, c.variables, h)
  {
    var result := c.coefficient;
    var i := 0;
    while i < |c.variables|
      invariant 0 <= i <= |c.variables|
      invariant Product(c.coefficient, c.variables[..i], h) == Ok(result)
    {
      ghost var prefix := c.variables[..i + 1];
      assert prefix[..i] == c.variables[..i] && prefix[i] == c.variables[i];
      var v := GetStatByName(h, c.variables[i]);
      if v.Err? {
        ProductStopsAtError(c.coefficient, c.variables, i + 1, h);
        return Err(v.error);
      }
      result := Times(result, v.value);
      i := i + 1;
    }
    assert c.variables[..i] == c.variables;
    r := Ok(result);
  }

  /** Once a prefix of the variables fails, the whole product fails with
      the same error. */
  lemma {:induction false} ProductStopsAtError(x: real, vars: seq<string>, i: nat, h: HybridStats)
    requires i <= |vars| && Product(x, vars[..i], h).Err?
    ensures Product(x, vars, h) == Product(x, vars[..i], h)
    decreases |vars|
  {
    if i < |vars| {
      var n := |vars| - 1;
      assert vars[..n][..i] == vars[..i];
      ProductStopsAtError(x, vars[..n], i, h);
    } else {
      assert vars[..i] == vars;
    }
  }

  lemma TimesAssociative(a: real, b: real, c: real)
    ensures Times(a, Times(b, c)) == Times(Times(a, b), c)
  {
  }

  /** The product of a sequence of reals, first to last. */
  function RealProduct(xs: seq<real>): real
  {
    if xs == [] then 1.0 else Times(xs[0], RealProduct(xs[1..]))
  }

  lemma {:induction false} RealProductSnoc(xs: seq<real>, y: real)
    ensures RealProduct(xs + [y]) == Times(RealProduct(xs), y)
  {
    if xs != [] {
      assert (xs + [y])[1..] == xs[1..] + [y];
      RealProductSnoc(xs[1..], y);
      TimesAssociative(xs[0], RealProduct(xs[1..]), y);
    } else {
      assert [y][1..] == [];
    }
  }

  /** When every variable names a statistic, evaluation is the coefficient
      times the product of their values, and with no variables it is the
      coefficient itself. */
  lemma {:induction false} ProductOfValues(x: real, vars: seq<string>, values: seq<real>, h: HybridStats)
    requires |values| == |vars|
    requires forall i :: 0 <= i < |vars| ==> GetStatByName(h, vars[i]) == Ok(values[i])
    ensures Product(x, vars, h) == Ok(Times(x, RealProduct(values)))
    decreases |vars|
  {
    if vars != [] {
      var n := |vars| - 1;
      assert forall i :: 0 <= i < n ==> vars[..n][i] == vars[i] && values[..n][i] == values[i];
      ProductOfValues(x, vars[..n], values[..n], h);
      assert values == values[..n] + [values[n]];
      RealProductSnoc(values[..n], values[n]);
      TimesAssociative(x, RealProduct(values[..n]), values[n]);
    }
  }

  /** Evaluation fails exactly when some variable is refused, and then with
      the error of the first refused one. */
  lemma {:induction false} ProductFirstError(x: real, vars: seq<string>, h: HybridStats)
    ensures Product(x, vars, h).Err? <==> exists i :: 0 <= i < |vars| && GetStatByName(h, vars[i]).Err?
    ensures Product(x, vars, h).Err? ==>
      exists i :: && 0 <= i < |vars| && GetStatByName(h, vars[i]).Err?
                  && (forall j :: 0 <= j < i ==> GetStatByName(h, vars[j]).Ok?)
                  && Product(x, vars, h).error == GetStatByName(h, vars[i]).error
    decreases |vars|
  {
    if vars != [] {
      var n := |vars| - 1;
      ProductFirstError(x, vars[..n], h);
      if Product(x, vars[..n], h).Err? {
        var i :| 0 <= i < n && GetStatByName(h, vars[..n][i]).Err?
          && (forall j :: 0 <= j < i ==> GetStatByName(h, vars[..n][j]).Ok?)
          && Product(x, vars[..n], h).error == GetStatByName(h, vars[..n][i]).error;
        assert vars[..n][i] == vars[i];
        assert forall j :: 0 <= j < i ==> vars[..n][j] == vars[j];
      } else {
        assert forall j :: 0 <= j < n ==> vars[..n][j] == vars[j];
      }
    }
  }

  /** `*` and each variable, in order, after the coefficient. */
  function Starred(vars: seq<string>): string
  {
    if vars == [] then "" else Starred(vars[..|vars| - 1]) + "*" + vars[|vars| - 1]
  }

  /** `toString()` of a coefficient: the coefficient's text, then `*` and
      each variable. */
  function CoefficientText(c: CompoundCoefficient, d: DoubleText): string
  {
    d.show(c.coefficient) + Starred(c.variables)
  }

  /** `toString()`, appending to a buffer in a loop. */
  method CoefficientToString(c: CompoundCoefficient, d: DoubleText) returns (s: string)
    ensures s == CoefficientText(c, d)
  {
    s := d.show(c.coefficient);
    var i := 0;
    while i < |c.variables|
      invariant 0 <= i <= |c.variables|
      invariant s == d.show(c.coefficient) + Starred(c.variables[..i])
    {
      assert c.variables[..i + 1][..i] == c.variables[..i];
      s := s + "*" + c.variables[i];
      i := i + 1;
    }
    assert c.variables[..i] == c.variables;
  }

  lemma {:induction false} JoinSnoc(xs: seq<string>, v: string, sep: char)
    requires xs != []
    ensures Join(xs + [v], sep) == Join(xs, sep) + [sep] + v
    decreases |xs|
  {
    if |xs| > 1 {
      assert (xs + [v])[1..] == xs[1..] + [v];
      JoinSnoc(xs[1..], v, sep);
    }
  }

  /** The printed coefficient is the coefficient text and the variables
      joined by `*`. */
  lemma {:induction false} StarredIsJoin(head: string, vars: seq<string>)
    ensures head + Starred(vars) == Join([head] + vars, '*')
    decreases |vars|
  {
    if vars != [] {
      var n := |vars| - 1;
      StarredIsJoin(head, vars[..n]);
      assert [head] + vars == ([head] + vars[..n]) + [vars[n]];
      JoinSnoc([head] + vars[..n], vars[n], '*');
    }
  }

  /** A string `trim` leaves as it is. */
  predicate Unpadded(s: string)
  {
    s == [] || (!TrimSpace(s[0]) && !TrimSpace(s[|s| - 1]))
  }

  /** Splitting a printed coefficient on `*` gives the number's text and
      the variables back, when none of them has a `*` and the last variable
      is not empty. */
  lemma SplitCoefficientText(c: CompoundCoefficient, d: DoubleText)
    requires '*' !in d.show(c.coefficient)
    requires forall i :: 0 <= i < |c.variables| ==> '*' !in c.variables[i]
    requires c.variables != [] ==> c.variables[|c.variables| - 1] != ""
    ensures Split(CoefficientText(c, d), {'*'}) == [d.show(c.coefficient)] + c.variables
  {
    var head := d.show(c.coefficient);
    var xs := [head] + c.variables;
    StarredIsJoin(head, c.variables);
    if c.variables == [] {
      assert CoefficientText(c, d) == head;
      assert !HasDelimiter(head, {'*'});
    } else {
      assert forall i :: 0 <= i < |xs| ==> '*' !in xs[i] by {
        forall i | 0 <= i < |xs| ensures '*' !in xs[i] {
          if i > 0 {
            assert xs[i] == c.variables[i - 1];
          }
        }
      }
      SplitOfJoin(xs, '*');
    }
  }

  /** Reading a printed coefficient back gives the same coefficient, when
      the number's text reads back as the number and has no `*`, no variable
      has a `*` or leading or trailing blanks, and the last variable is not
      empty. */
  lemma CoefficientRoundTrip(c: CompoundCoefficient, d: DoubleText)
    requires d.parse(d.show(c.coefficient)) == Some(c.coefficient)
    requires '*' !in d.show(c.coefficient)
    requires forall i :: 0 <= i < |c.variables| ==> '*' !in c.variables[i]
    requires forall i :: 0 <= i < |c.variables| ==> Unpadded(c.variables[i])
    requires c.variables != [] ==> c.variables[|c.variables| - 1] != ""
    ensures ParseCoefficient(CoefficientText(c, d), d) == Ok(c)
  {
    SplitCoefficientText(c, d);
    TrimmedTailUnpadded(d.show(c.coefficient), c.variables);
  }

  /** Trimming pieces that have no blanks at their ends changes nothing. */
  lemma TrimmedTailUnpadded(head: string, vars: seq<string>)
    requires forall i :: 0 <= i < |vars| ==> Unpadded(vars[i])
    ensures TrimmedTail([head] + vars) == vars
  {
    var bits := [head] + vars;
    forall i | 0 <= i < |vars| ensures TrimmedTail(bits)[i] == vars[i] {
      assert bits[i + 1] == vars[i];
      TrimmedIsFixed(vars[i]);
    }
  }

  /** The message for a compound stat line that does not have the shape
      `name(error) coefficients`. */
  function StatError(line: string): string
  {
    "Could not parse compound stat specifier '" + line + "'"
  }

  /** The result of parsing each of `texts`. */
  function ParseEach(texts: seq<string>, d: DoubleText): (r: seq<Result<CompoundCoefficient>>)
    ensures |r| == |texts| && forall i :: 0 <= i < |texts| ==> r[i] == ParseCoefficient(texts[i], d)
  {
    seq(|texts|, i requires 0 <= i < |texts| => ParseCoefficient(texts[i], d))
  }

  /** The coefficients of a list of coefficient texts, in order; the first
      text that fails ends the list with its error. */
  function ParseCoefficients(texts: seq<string>, d: DoubleText): Result<seq<CompoundCoefficient>>
  {
    Collect(ParseEach(texts, d))
  }

  /** A coefficient list parses exactly when each of its texts does, into
      their coefficients in order; otherwise the first text that fails
      supplies the exception. */
  lemma ParseCoefficientsShape(texts: seq<string>, d: DoubleText)
    ensures ParseCoefficients(texts, d).Ok? <==>
      forall i :: 0 <= i < |texts| ==> ParseCoefficient(texts[i], d).Ok?
    ensures ParseCoefficients(texts, d).Ok? ==> |ParseCoefficients(texts, d).value| == |texts|
    ensures ParseCoefficients(texts, d).Ok? ==> forall i :: 0 <= i < |texts| ==>
      ParseCoefficient(texts[i], d) == Ok(ParseCoefficients(texts, d).value[i])
    ensures ParseCoefficients(texts, d).Err? ==>
      exists i :: && 0 <= i < |texts| && ParseCoefficient(texts[i], d).Err?
                  && ParseCoefficients(texts, d).error == ParseCoefficient(texts[i], d).error
                  && forall j :: 0 <= j < i ==> ParseCoefficient(texts[j], d).Ok?
  {
    CollectShape(ParseEach(texts, d));
  }

  /** The fields `new CompoundStat(inputLine)` sets, or the exception it
      throws: the line split on `(` and `)` must leave exactly three pieces,
      the name, the standard deviation and the coefficient list; the latter
      is split on `:` with the blanks around it. */
  function ParseStat(line: string, d: DoubleText): (r: Result<(string, real, seq<CompoundCoefficient>)>)
  {
    var firstPass := Split(line, {'(', ')'});
    if |firstPass| != 3 then Err(Parse(StatError(line)))
    else match d.parse(firstPass[1])
      case None => Err(NumberFormat(firstPass[1]))
      case Some(e) =>
        match ParseCoefficients(SplitColonSpaced(firstPass[2]), d)
        case Err(e') => Err(e')
        case Ok(cs) => Ok((firstPass[0], e, cs))
  }

  /** A line is refused as malformed exactly when splitting it on the
      parentheses does not leave three pieces; otherwise the name is the
      first piece and the standard deviation the second. */
  lemma ParseStatShape(line: string, d: DoubleText)
    ensures ParseStat(line, d) == Err(Parse(StatError(line))) <==> |Split(line, {'(', ')'})| != 3
    ensures ParseStat(line, d).Ok? ==> ParseStat(line, d).value.0 == Split(line, {'(', ')'})[0]
    ensures ParseStat(line, d).Ok? ==> d.parse(Split(line, {'(', ')'})[1]) == Some(ParseStat(line, d).value.1)
  {
    var firstPass := Split(line, {'(', ')'});
    if |firstPass| == 3 && d.parse(firstPass[1]).Some? {
      var texts := SplitColonSpaced(firstPass[2]);
      var r := ParseCoefficients(texts, d);
      if r.Err? {
        CollectShape(ParseEach(texts, d));
      }
    }
  }

  /** The sum of a sequence of reals. */
  function RealSum(xs: seq<real>): real
  {
    if xs == [] then 0.0 else xs[0] + RealSum(xs[1..])
  }

  lemma {:induction false} RealSumSnoc(xs: seq<real>, y: real)
    ensures RealSum(xs + [y]) == RealSum(xs) + y
  {
    if xs != [] {
      assert (xs + [y])[1..] == xs[1..] + [y];
      RealSumSnoc(xs[1..], y);
    } else {
      assert [y][1..] == [];
    }
  }

  /** The running sum of `evaluate`: the coefficients' values added in
      order; the first one that cannot be evaluated ends it with its error. */
  function Total(coefs: seq<CompoundCoefficient>, h: HybridStats): Result<real>
    decreases |coefs|
  {
    if coefs == [] then Ok(0.0)
    else
      match Total(coefs[..|coefs| - 1], h)
      case Err(e) => Err(e)
      case Ok(s) =>
        match Product(coefs[|coefs| - 1].coefficient, coefs[|coefs| - 1].variables, h)
        case Err(e) => Err(e)
        case Ok(v) => Ok(s + v)
  }

  /** Once a prefix of the coefficients fails, the whole sum fails with the
      same error. */
  lemma {:induction false} TotalStopsAtError(coefs: seq<CompoundCoefficient>, i: nat, h: HybridStats)
    requires i <= |coefs| && Total(coefs[..i], h).Err?
    ensures Total(coefs, h) == Total(coefs[..i], h)
    decreases |coefs|
  {
    if i < |coefs| {
      var n := |coefs| - 1;
      assert coefs[..n][..i] == coefs[..i];
      TotalStopsAtError(coefs[..n], i, h);
    } else {
      assert coefs[..i] == coefs;
    }
  }

  /** When every coefficient can be evaluated, the compound statistic is the
      sum of their values, and 0 with no coefficients. */
  lemma {:induction false} TotalOfValues(coefs: seq<CompoundCoefficient>, values: seq<real>, h: HybridStats)
    requires |values| == |coefs|
    requires forall i :: 0 <= i < |coefs| ==> Product(coefs[i].coefficient, coefs[i].variables, h) == Ok(values[i])
    ensures Total(coefs, h) == Ok(RealSum(values))
    decreases |coefs|
  {
    if coefs != [] {
      var n := |coefs| - 1;
      assert values == values[..n] + [values[n]];
      RealSumSnoc(values[..n], values[n]);
      assert forall i :: 0 <= i < n ==> coefs[..n][i] == coefs[i] && values[..n][i] == values[i];
      TotalOfValues(coefs[..n], values[..n], h);
    }
  }

  /** The coefficients of a printed compound statistic after the first
      separator: `" "` before the first and `" : "` before each later one. */
  function Listed(coefs: seq<CompoundCoefficient>, d: DoubleText): string
  {
    if coefs == [] then ""
    else Listed(coefs[..|coefs| - 1], d) + (if |coefs| == 1 then " " else " : ") + CoefficientText(coefs[|coefs| - 1], d)
  }

  /** `toString()` of a compound statistic. */
  function StatText(name: string, error: real, coefs: seq<CompoundCoefficient>, d: DoubleText): string
  {
    name + "(" + d.show(error) + ")" + Listed(coefs, d)
  }

  /** The pieces `Listed` joins with `:`: each coefficient's text with a
      blank before it, and a blank after it on all but the last. */
  function Padded(coefs: seq<CompoundCoefficient>, d: DoubleText): (r: seq<string>)
    ensures |r| == |coefs|
  {
    seq(|coefs|, i requires 0 <= i < |coefs| =>
      " " + CoefficientText(coefs[i], d) + (if i < |coefs| - 1 then " " else ""))
  }

  /** Appending to a joined string appends to its last element. */
  lemma {:induction false} JoinAppendLast(xs: seq<string>, t: string, sep: char)
    requires xs != []
    ensures Join(xs, sep) + t == Join(xs[..|xs| - 1] + [xs[|xs| - 1] + t], sep)
    decreases |xs|
  {
    if |xs| > 1 {
      var k := |xs| - 1;
      assert (xs[..k] + [xs[k] + t])[1..] == xs[1..][..k - 1] + [xs[1..][k - 1] + t];
      JoinAppendLast(xs[1..], t, sep);
    }
  }

  /** Adding a coefficient adds a blank after the previous last piece. */
  lemma PaddedSnoc(coefs: seq<CompoundCoefficient>, d: DoubleText)
    requires |coefs| >= 2
    ensures var m := |coefs| - 1; var front := Padded(coefs[..m], d);
      Padded(coefs, d) == (front[..m - 1] + [front[m - 1] + " "]) + [" " + CoefficientText(coefs[m], d)]
  {
    var m := |coefs| - 1;
    var front := Padded(coefs[..m], d);
    var all := Padded(coefs, d);
    var other := (front[..m - 1] + [front[m - 1] + " "]) + [" " + CoefficientText(coefs[m], d)];
    forall j | 0 <= j < |coefs| ensures other[j] == all[j] {
      if j < m {
        assert coefs[..m][j] == coefs[j];
      }
    }
  }

  /** The printed coefficient list is its padded pieces joined by `:`. */
  lemma {:induction false} ListedIsJoin(coefs: seq<CompoundCoefficient>, d: DoubleText)
    requires coefs != []
    ensures Listed(coefs, d) == Join(Padded(coefs, d), ':')
    decreases |coefs|
  {
    var m := |coefs| - 1;
    if m == 0 {
      assert Listed(coefs, d) == Padded(coefs, d)[0];
    } else {
      var front := Padded(coefs[..m], d);
      var last := " " + CoefficientText(coefs[m], d);
      ListedIsJoin(coefs[..m], d);
      JoinAppendLast(front, " ", ':');
      PaddedSnoc(coefs, d);
      JoinSnoc(front[..m - 1] + [front[m - 1] + " "], last, ':');
    }
  }

  /** A coefficient text the colon separator leaves intact: not empty, no
      `\s` at either end, and no `:`. */
  predicate ColonSafe(t: string)
  {
    t != [] && !RegexSpace(t[0]) && !RegexSpace(t[|t| - 1]) && ':' !in t
  }

  lemma TrimStartBlank(s: string)
    requires s == [] || !RegexSpace(s[0])
    ensures TrimStart(" " + s) == s
  {
    assert (" " + s)[1..] == s;
  }

  lemma TrimEndBlank(s: string)
    requires s != [] && !RegexSpace(s[|s| - 1])
    ensures TrimEnd(s + " ") == s
  {
    assert (s + " ")[..|s|] == s;
  }

  /** The colon split trims each padded piece back to its coefficient's
      text; the first keeps the blank before it. */
  lemma PaddedPiece(coefs: seq<CompoundCoefficient>, d: DoubleText, i: nat)
    requires 2 <= |coefs| && i < |coefs|
    requires ColonSafe(CoefficientText(coefs[i], d))
    ensures SpacedPiece(Padded(coefs, d), i) ==
      (if i == 0 then " " + CoefficientText(coefs[0], d) else CoefficientText(coefs[i], d))
  {
    SpacedPadded(Padded(coefs, d), i, CoefficientText(coefs[i], d));
  }

  /** A text with a blank before it, and one after unless it is last, loses
      both blanks to the colon split, except the blank before the first. */
  lemma SpacedPadded(ps: seq<string>, i: nat, t: string)
    requires i < |ps| && ps[i] == " " + t + (if i < |ps| - 1 then " " else "")
    requires t != [] && !RegexSpace(t[0]) && !RegexSpace(t[|t| - 1])
    ensures SpacedPiece(ps, i) == if i == 0 then " " + t else t
  {
    if i == 0 {
      if i < |ps| - 1 {
        assert ps[i] == (" " + t) + " ";
        TrimEndBlank(" " + t);
      } else {
        assert ps[i] == " " + t;
      }
    } else if i < |ps| - 1 {
      assert ps[i] == " " + (t + " ");
      TrimStartBlank(t + " ");
      TrimEndBlank(t);
    } else {
      assert ps[i] == " " + t;
      TrimStartBlank(t);
    }
  }

  /** The text of each coefficient as the colon split of the printed list
      gives it back: the first with the blank printed before it. */
  function ListedTexts(coefs: seq<CompoundCoefficient>, d: DoubleText): (r: seq<string>)
    ensures |r| == |coefs|
  {
    seq(|coefs|, i requires 0 <= i < |coefs| =>
      if i == 0 then " " + CoefficientText(coefs[i], d) else CoefficientText(coefs[i], d))
  }

  /** Splitting the printed coefficient list on `:` with its blanks gives
      each coefficient's text back; the first keeps the blank before it. */
  lemma ListedSplits(coefs: seq<CompoundCoefficient>, d: DoubleText)
    requires coefs != []
    requires forall i :: 0 <= i < |coefs| ==> ColonSafe(CoefficientText(coefs[i], d))
    ensures SplitColonSpaced(Listed(coefs, d)) == ListedTexts(coefs, d)
  {
    var ps := Padded(coefs, d);
    var qs := ListedTexts(coefs, d);
    ListedIsJoin(coefs, d);
    PiecesOfJoin(ps, ':');
    if |coefs| == 1 {
      assert Listed(coefs, d) == ps[0] == qs[0];
    } else {
      assert Join(ps, ':')[|ps[0]|] == ':';
      forall i | 0 <= i < |coefs| ensures SpacedPiece(ps, i) == qs[i] {
        PaddedPiece(coefs, d, i);
      }
      SplitColonSpacedIs(Listed(coefs, d), qs);
    }
  }

  /** A character other than a blank or `:` is in the printed coefficient
      list only when it is in one of the coefficients' texts. */
  lemma {:induction false} ListedAvoids(coefs: seq<CompoundCoefficient>, d: DoubleText, ch: char)
    requires ch != ' ' && ch != ':'
    requires forall i :: 0 <= i < |coefs| ==> ch !in CoefficientText(coefs[i], d)
    ensures ch !in Listed(coefs, d)
    decreases |coefs|
  {
    if coefs != [] {
      var m := |coefs| - 1;
      assert forall i :: 0 <= i < m ==> coefs[..m][i] == coefs[i];
      ListedAvoids(coefs[..m], d, ch);
    }
  }

  /** Splitting a printed compound statistic on the parentheses gives the
      name, the standard deviation's text and the coefficient list, when
      none of them has a parenthesis; with no coefficients only two pieces
      are left. */
  lemma StatTextPieces(name: string, error: real, coefs: seq<CompoundCoefficient>, d: DoubleText)
    requires '(' !in name && ')' !in name
    requires '(' !in d.show(error) && ')' !in d.show(error)
    requires '(' !in Listed(coefs, d) && ')' !in Listed(coefs, d)
    ensures coefs != [] ==> Split(StatText(name, error, coefs, d), {'(', ')'}) == [name, d.show(error), Listed(coefs, d)]
    ensures coefs == [] ==> |Split(StatText(name, error, coefs, d), {'(', ')'})| < 3
  {
    var line := StatText(name, error, coefs, d);
    StatTextParenPieces(name, d.show(error), Listed(coefs, d));
    assert line[|name|] == '(';
    assert HasDelimiter(line, {'(', ')'});
    if coefs != [] {
      var t := CoefficientText(coefs[|coefs| - 1], d);
      assert Listed(coefs, d) != "";
    }
  }

  /** The pieces of `name(e)rest` between parentheses. */
  lemma StatTextParenPieces(name: string, e: string, rest: string)
    requires '(' !in name && ')' !in name
    requires '(' !in e && ')' !in e
    requires '(' !in rest && ')' !in rest
    ensures Pieces(name + "(" + e + ")" + rest, {'(', ')'}) == [name, e, rest]
  {
    var delims := {'(', ')'};
    assert name + "(" + e + ")" + rest == name + ['('] + (e + [')'] + rest);
    PiecesAfterWord(name, '(', e + [')'] + rest, delims);
    PiecesAfterWord(e, ')', rest, delims);
    PiecesWithoutDelimiter(rest, delims);
  }

  /** A compound statistic printed with no coefficients, as the
      `(name, stdev)` constructor leaves it, is refused by the parser. */
  lemma EmptyStatRefused(name: string, error: real, d: DoubleText)
    requires '(' !in name && ')' !in name
    requires '(' !in d.show(error) && ')' !in d.show(error)
    ensures ParseStat(StatText(name, error, [], d), d) == Err(Parse(StatError(StatText(name, error, [], d))))
  {
    StatTextPieces(name, error, [], d);
  }

  /** What a coefficient needs to be printed and read back in a compound
      statistic: its own round trip, and text that neither separator nor
      parenthesis touches. */
  predicate Printable(c: CompoundCoefficient, d: DoubleText)
  {
    && d.parse(d.show(c.coefficient)) == Some(c.coefficient)
    && '*' !in d.show(c.coefficient)
    && (forall i :: 0 <= i < |c.variables| ==> '*' !in c.variables[i] && Unpadded(c.variables[i]))
    && (c.variables != [] ==> c.variables[|c.variables| - 1] != "")
    && ColonSafe(CoefficientText(c, d))
    && '(' !in CoefficientText(c, d) && ')' !in CoefficientText(c, d)
  }

  /** The first coefficient is read back from its text with the blank
      printed before it, when the number reader ignores that blank. */
  lemma FirstCoefficientRoundTrip(c: CompoundCoefficient, d: DoubleText)
    requires Printable(c, d)
    requires d.parse(" " + d.show(c.coefficient)) == Some(c.coefficient)
    ensures ParseCoefficient(" " + CoefficientText(c, d), d) == Ok(c)
  {
    var blank := DoubleText(d.parse, x => " " + d.show(x));
    CoefficientRoundTrip(c, blank);
    BlankCoefficientText(c, d);
  }

  /** Printing the number with a blank before it prints the coefficient
      with a blank before it. */
  lemma BlankCoefficientText(c: CompoundCoefficient, d: DoubleText)
    ensures CoefficientText(c, DoubleText(d.parse, x => " " + d.show(x))) == " " + CoefficientText(c, d)
  {
  }

  /** Texts that each parse to their coefficient parse, as a list, to the
      coefficients in order. */
  lemma ParseCoefficientsOf(texts: seq<string>, coefs: seq<CompoundCoefficient>, d: DoubleText)
    requires |texts| == |coefs|
    requires forall i :: 0 <= i < |texts| ==> ParseCoefficient(texts[i], d) == Ok(coefs[i])
    ensures ParseCoefficients(texts, d) == Ok(coefs)
  {
    ParseCoefficientsShape(texts, d);
    assert forall i :: 0 <= i < |texts| ==> ParseCoefficient(texts[i], d).Ok?;
    var cs := ParseCoefficients(texts, d).value;
    assert forall i :: 0 <= i < |texts| ==> cs[i] == coefs[i];
    assert cs == coefs;
  }

  /** Reading a printed compound statistic back gives its name, standard
      deviation and coefficients. The first coefficient is printed after a
      blank that the colon split keeps, so the number reader must accept a
      leading blank, as `Double.valueOf` does. */
  lemma StatRoundTrip(name: string, error: real, coefs: seq<CompoundCoefficient>, d: DoubleText)
    requires '(' !in name && ')' !in name
    requires d.parse(d.show(error)) == Some(error)
    requires '(' !in d.show(error) && ')' !in d.show(error)
    requires coefs != []
    requires forall i :: 0 <= i < |coefs| ==> Printable(coefs[i], d)
    requires d.parse(" " + d.show(coefs[0].coefficient)) == Some(coefs[0].coefficient)
    ensures ParseStat(StatText(name, error, coefs, d), d) == Ok((name, error, coefs))
  {
    ListedAvoids(coefs, d, '(');
    ListedAvoids(coefs, d, ')');
    StatTextPieces(name, error, coefs, d);
    ListedSplits(coefs, d);
    ListedReadsBack(coefs, d);
  }

  /** The coefficient texts the colon split gives back parse to the
      coefficients in order. */
  lemma ListedReadsBack(coefs: seq<CompoundCoefficient>, d: DoubleText)
    requires coefs != []
    requires forall i :: 0 <= i < |coefs| ==> Printable(coefs[i], d)
    requires d.parse(" " + d.show(coefs[0].coefficient)) == Some(coefs[0].coefficient)
    ensures ParseCoefficients(ListedTexts(coefs, d), d) == Ok(coefs)
  {
    var texts := ListedTexts(coefs, d);
    forall i | 0 <= i < |coefs| ensures ParseCoefficient(texts[i], d) == Ok(coefs[i]) {
      ListedTextReadsBack(coefs, d, i);
    }
    ParseCoefficientsOf(texts, coefs, d);
  }

  lemma ListedTextReadsBack(coefs: seq<CompoundCoefficient>, d: DoubleText, i: nat)
    requires i < |coefs| && Printable(coefs[i], d)
    requires d.parse(" " + d.show(coefs[0].coefficient)) == Some(coefs[0].coefficient)
    ensures ParseCoefficient(ListedTexts(coefs, d)[i], d) == Ok(coefs[i])
  {
    if i == 0 {
      FirstCoefficientRoundTrip(coefs[0], d);
    } else {
      CoefficientRoundTrip(coefs[i], d);
    }
  }

  class CompoundStat {
    var name: string
    var coefficients: seq<CompoundCoefficient>
    var error: real

    /** `new CompoundStat(name, stdev)`: the name and no coefficients; the
        standard deviation is not stored, so the error stays 0. */
    constructor (name: string, stdev: real)
      ensures this.name == name && coefficients == [] && error == 0.0
    {
      this.name := name;
      coefficients := [];
      error := 0.0;
    }

    /** `new CompoundStat(inputLine)`. */
    static method FromLine(line: string, d: DoubleText) returns (r: Result<CompoundStat>)
      ensures r.Ok? <==> ParseStat(line, d).Ok?
      ensures r.Err? ==> r.error == ParseStat(line, d).error
      ensures r.Ok? ==> fresh(r.value)
      ensures r.Ok? ==> (r.value.name, r.value.error, r.value.coefficients) == ParseStat(line, d).value
    {
      var firstPass := Split(line, {'(', ')'});
      if |firstPass| != 3 {
        return Err(Parse(StatError(line)));
      }
      var parsed := d.parse(firstPass[1]);
      if parsed.None? {
        return Err(NumberFormat(firstPass[1]));
      }
      var s := new CompoundStat(firstPass[0], 0.0);
      s.error := parsed.value;
      var o := s.AddAll(SplitColonSpaced(firstPass[2]), d);
      if o.Fail? {
        return Err(o.error);
      }
      return Ok(s);
    }

    /** The loop of the parsing constructor: one coefficient per text, in
        order, stopping at the first text that does not parse. */
    method AddAll(texts: seq<string>, d: DoubleText) returns (o: Outcome)
      requires coefficients == []
      modifies this`coefficients
      ensures ParseCoefficients(texts, d).Ok? ==> o == Pass && coefficients == ParseCoefficients(texts, d).value
      ensures ParseCoefficients(texts, d).Err? ==> o == Fail(ParseCoefficients(texts, d).error)
    {
      var i := 0;
      while i < |texts|
        invariant 0 <= i <= |texts|
        invariant Collect(ParseEach(texts, d)[..i]) == Ok(coefficients)
      {
        ghost var step := ParseEach(texts, d)[..i + 1];
        assert step[..i] == ParseEach(texts, d)[..i] && step[i] == ParseCoefficient(texts[i], d);
        o := AddCoefficient(texts[i], d);
        if o.Fail? {
          CollectStopsAtError(ParseEach(texts, d), i + 1);
          return;
        }
        i := i + 1;
      }
      assert ParseEach(texts, d)[..i] == ParseEach(texts, d);
      o := Pass;
    }

    /** `getName()`. */
    function GetName(): (n: string)
      reads this
      ensures n == name
    {
      name
    }

    /** `addCoefficient(coefString)`: appends the one coefficient the text
        gives, or throws what parsing it throws and changes nothing. */
    method AddCoefficient(coefString: string, d: DoubleText) returns (o: Outcome)
      modifies this`coefficients
      ensures ParseCoefficient(coefString, d).Ok? ==>
        o == Pass && coefficients == old(coefficients) + [ParseCoefficient(coefString, d).value]
      ensures ParseCoefficient(coefString, d).Err? ==>
        o == Fail(ParseCoefficient(coefString, d).error) && coefficients == old(coefficients)
    {
      var c := NewCoefficient(coefString, d);
      if c.Err? {
        return Fail(c.error);
      }
      coefficients := coefficients + [c.value];
      return Pass;
    }

    /** `evaluate(stats)`: the sum of the coefficients' values. */
    method Evaluate(h: HybridStats) returns (r: Result<real>)
      ensures r == Total(coefficients, h)
    {
      var sum := 0.0;
      var i := 0;
      while i < |coefficients|
        invariant 0 <= i <= |coefficients|
        invariant Total(coefficients[..i], h) == Ok(sum)
      {
        assert coefficients[..i + 1][..i] == coefficients[..i];
        var v := EvaluateCoefficient(coefficients[i], h);
        if v.Err? {
          TotalStopsAtError(coefficients, i + 1, h);
          return Err(v.error);
        }
        sum := sum + v.value;
        i := i + 1;
      }
      assert coefficients[..i] == coefficients;
      r := Ok(sum);
    }

    /** `evaluateRange(stats, range, scale)`: the value less and plus
        `scale` standard deviations, in `range[0]` and `range[1]`. A failed
        evaluation writes nothing; a range too short for an entry fails at
        the write of that entry, after the writes before it. */
    method EvaluateRange(h: HybridStats, range: array<real>, scale: real) returns (o: Outcome)
      modifies range
      ensures Total(coefficients, h).Err? ==> o == Fail(Total(coefficients, h).error) && range[..] == old(range[..])
      ensures Total(coefficients, h).Ok? && range.Length == 0 ==> o == Fail(IndexOutOfBounds(0)) && range[..] == old(range[..])
      ensures Total(coefficients, h).Ok? && range.Length == 1 ==>
        o == Fail(IndexOutOfBounds(1)) && range[0] == Total(coefficients, h).value - Times(scale, error)
      ensures Total(coefficients, h).Ok? && range.Length >= 2 ==>
        && o == Pass
        && range[0] == Total(coefficients, h).value - Times(scale, error)
        && range[1] == Total(coefficients, h).value + Times(scale, error)
        && range[2..] == old(range[2..])
        && (range[0] + range[1]) / 2.0 == Total(coefficients, h).value
    {
      var eval := Evaluate(h);
      if eval.Err? {
        return Fail(eval.error);
      }
      if range.Length == 0 {
        return Fail(IndexOutOfBounds(0));
      }
      range[0] := eval.value - Times(scale, error);
      if range.Length == 1 {
        return Fail(IndexOutOfBounds(1));
      }
      range[1] := eval.value + Times(scale, error);
      return Pass;
    }

    /** `toString()`, appending to a buffer in a loop. */
    method ToString(d: DoubleText) returns (s: string)
      ensures s == StatText(name, error, coefficients, d)
    {
      s := name + "(" + d.show(error) + ")";
      var separator := " ";
      var i := 0;
      while i < |coefficients|
        invariant 0 <= i <= |coefficients|
        invariant s == name + "(" + d.show(error) + ")" + Listed(coefficients[..i], d)
        invariant separator == if i == 0 then " " else " : "
      {
        assert coefficients[..i + 1][..i] == coefficients[..i];
        var text := CoefficientToString(coefficients[i], d);
        s := s + separator + text;
        separator := " : ";
        i := i + 1;
      }
      assert coefficients[..i] == coefficients;
    }
  }

}
