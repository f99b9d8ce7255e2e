/**
 * The names get_features in features.py gives its polynomial features: for
 * each exponent row, the features it raises are rendered one by one (the
 * bare name for power 1, the power pattern above that) and joined left to
 * right with the product pattern. The defaults name the features x0, x1,
 * ..., render a power as "f^p" and a product as "a * b".
 */
module FeatureNames {
  import opened Seqs
  import opened PolynomialFeatures
  import opened StableSort

  datatype Option<T> = None | Some(value: T)

  /** `power_pattern(feature, power)`: the name of a feature raised to a power. */
  type PowerPattern = (string, int) -> string

  /** `product_pattern(left, right)`: the name of a product of two factors. */
  type ProductPattern = (string, string) -> string

  /**
   * The factor names of a row for its first |names| features, in feature
   * order: nothing for a power below 1, the bare name for power 1, the power
   * pattern for a larger power.
   */
  function Factors(row: seq<int>, names: seq<string>, powerPattern: PowerPattern): seq<string>
    requires |names| <= |row|
    decreases |names|
  {
    if names == [] then []
    else
      var k := |names| - 1;
      Factors(row, names[..k], powerPattern)
        + (if row[k] > 1 then [powerPattern(names[k], row[k])]
           else if row[k] == 1 then [names[k]]
           else [])
  }

  /** The factor names folded left to right: ((f0 * f1) * f2) * ... ; "" for none. */
  function JoinFactors(fs: seq<string>, productPattern: ProductPattern): string
  {
    if fs == [] then ""
    else if |fs| == 1 then fs[0]
    else productPattern(JoinFactors(fs[..|fs| - 1], productPattern), fs[|fs| - 1])
  }

  /** Folding in one more factor: the product pattern, unless it is the first. */
  lemma JoinFactorsSnoc(fs: seq<string>, productPattern: ProductPattern)
    ensures forall f :: (JoinFactors(fs + [f], productPattern)
      == if fs == [] then f else productPattern(JoinFactors(fs, productPattern), f))
  {
    forall f ensures JoinFactors(fs + [f], productPattern)
      == if fs == [] then f else productPattern(JoinFactors(fs, productPattern), f)
    {
      assert (fs + [f])[..|fs|] == fs;
    }
  }

  /** The name of the polynomial feature an exponent row stands for. */
  function RowName(row: seq<int>, names: seq<string>, powerPattern: PowerPattern,
                   productPattern: ProductPattern): string
    requires |names| <= |row|
  {
    JoinFactors(Factors(row, names, powerPattern), productPattern)
  }

  /**
   * The name loop of get_features: one name per exponent row, built by
   * scanning the named features and counting the factors placed so far.
   */
  method PolyNames(powers: seq<seq<int>>, names: seq<string>, powerPattern: PowerPattern,
                   productPattern: ProductPattern) returns (polyNames: seq<string>)
    requires forall k :: 0 <= k < |powers| ==> |names| <= |powers[k]|
    ensures |polyNames| == |powers|
    ensures forall k :: 0 <= k < |powers| ==>
      polyNames[k] == RowName(powers[k], names, powerPattern, productPattern)
  {
    polyNames := [];
    for k := 0 to |powers|
      invariant |polyNames| == k
      invariant forall j :: 0 <= j < k ==>
        polyNames[j] == RowName(powers[j], names, powerPattern, productPattern)
    {
      var power := powers[k];
      var name := "";
      var count := 0;
      for idx := 0 to |names|
        invariant count == |Factors(power, names[..idx], powerPattern)|
        invariant name == JoinFactors(Factors(power, names[..idx], powerPattern), productPattern)
      {
        var feature := names[idx];
        ghost var before := Factors(power, names[..idx], powerPattern);
        assert names[..idx + 1][..idx] == names[..idx] && names[..idx + 1][idx] == feature;
        JoinFactorsSnoc(before, productPattern);
        assert Factors(power, names[..idx + 1], powerPattern) == before
          + (if power[idx] > 1 then [powerPattern(feature, power[idx])]
             else if power[idx] == 1 then [feature]
             else []);
        assert before + [] == before;
        if power[idx] > 1 {
          if count != 0 {
            name := productPattern(name, powerPattern(feature, power[idx]));
          } else {
            name := powerPattern(feature, power[idx]);
          }
          count := count + 1;
        } else if power[idx] == 1 {
          if count != 0 {
            name := productPattern(name, feature);
          } else {
            name := feature;
          }
          count := count + 1;
        }
      }
      assert names[..|names|] == names;
      polyNames := polyNames + [name];
    }
  }

  /** A feature whose power is below 1 puts nothing into the name. */
  lemma {:induction false} FactorsCount(row: seq<int>, names: seq<string>, powerPattern: PowerPattern)
    requires |names| <= |row|
    ensures |Factors(row, names, powerPattern)| == |set j | 0 <= j < |names| && row[j] >= 1|
    decreases |names|
  {
    if names != [] {
      var k := |names| - 1;
      FactorsCount(row, names[..k], powerPattern);
      var before := set j | 0 <= j < k && row[j] >= 1;
      var after := set j | 0 <= j < |names| && row[j] >= 1;
      if row[k] >= 1 {
        assert after == before + {k};
      } else {
        assert after == before;
      }
    }
  }

  /** A row that raises no named feature has the empty name. */
  lemma UnraisedRowName(row: seq<int>, names: seq<string>,
                        powerPattern: PowerPattern, productPattern: ProductPattern)
    requires |names| <= |row|
    requires forall j :: 0 <= j < |names| ==> row[j] < 1
    ensures RowName(row, names, powerPattern, productPattern) == ""
  {
    UnraisedFactors(row, names, powerPattern);
  }

  lemma {:induction false} UnraisedFactors(row: seq<int>, names: seq<string>, powerPattern: PowerPattern)
    requires |names| <= |row|
    requires forall j :: 0 <= j < |names| ==> row[j] < 1
    ensures Factors(row, names, powerPattern) == []
    decreases |names|
  {
    if names != [] {
      UnraisedFactors(row, names[..|names| - 1], powerPattern);
    }
  }

  /**
   * The name of a row that raises feature i alone to power p >= 1: the bare
   * name for p = 1, the power pattern otherwise. These are the rows powers
   * yields.
   */
  lemma UnitRowName(n: nat, names: seq<string>, i: nat, p: int,
                    powerPattern: PowerPattern, productPattern: ProductPattern)
    requires |names| <= n && i < |names| && p >= 1
    ensures RowName(UnitRow(n, i, p), names, powerPattern, productPattern)
      == if p > 1 then powerPattern(names[i], p) else names[i]
  {
    var row := UnitRow(n, i, p);
    UnitFactors(row, names, i, p, powerPattern);
  }

  lemma {:induction false} UnitFactors(row: seq<int>, names: seq<string>, i: nat, p: int,
                                       powerPattern: PowerPattern)
    requires |names| <= |row| && p >= 1
    requires forall j :: 0 <= j < |row| ==> row[j] == if j == i then p else 0
    ensures Factors(row, names, powerPattern)
      == if i < |names| then [if p > 1 then powerPattern(names[i], p) else names[i]] else []
    decreases |names|
  {
    if names != [] {
      UnitFactors(row, names[..|names| - 1], i, p, powerPattern);
    }
  }

  // ---------------------------------------------------------------------
  // The default patterns
  // ---------------------------------------------------------------------

  function DigitChar(d: nat): char
    requires d < 10
  {
    (48 + d) as char
  }

  predicate IsDigit(c: char)
  {
    '0' <= c <= '9'
  }

  /** `"%d" % n` for n >= 0: the decimal digits, without leading zeros. */
  function NatToDecimal(n: nat): (s: string)
    ensures |s| >= 1 && (forall j :: 0 <= j < |s| ==> IsDigit(s[j]))
    ensures s[0] == '0' ==> n == 0
  {
    if n < 10 then [DigitChar(n)] else NatToDecimal(n / 10) + [DigitChar(n % 10)]
  }

  /** `"%d" % n` */
  function IntToDecimal(n: int): string
  {
    if n < 0 then "-" + NatToDecimal(-n) else NatToDecimal(n)
  }

  function DigitValue(c: char): nat
    requires IsDigit(c)
  {
    (c as int) - ('0' as int)
  }

  /** The number a string of decimal digits spells. */
  function DecimalValue(s: string): nat
    requires forall j :: 0 <= j < |s| ==> IsDigit(s[j])
  {
    if s == [] then 0 else 10 * DecimalValue(s[..|s| - 1]) + DigitValue(s[|s| - 1])
  }

  /** Reading back the digits of "%d" gives the number printed. */
  lemma {:induction false} DecimalRoundTrip(n: nat)
    ensures DecimalValue(NatToDecimal(n)) == n
  {
    if n >= 10 {
      DecimalRoundTrip(n / 10);
      var s := NatToDecimal(n);
      assert s[..|s| - 1] == NatToDecimal(n / 10);
    }
  }

  /** `["x%d" % i for i in range(m)]` */
  function DefaultNames(m: nat): (names: seq<string>)
    ensures |names| == m
  {
    seq(m, i requires 0 <= i < m => "x" + NatToDecimal(i))
  }

  /** The default names are pairwise different. */
  lemma DefaultNamesDistinct(m: nat)
    ensures Distinct(DefaultNames(m))
  {
    var names := DefaultNames(m);
    forall i, j | 0 <= i < j < m ensures names[i] != names[j] {
      DecimalRoundTrip(i);
      DecimalRoundTrip(j);
      assert names[i][1..] == NatToDecimal(i) && names[j][1..] == NatToDecimal(j);
    }
  }

  /** `lambda f, p: "%s^%d" % (f, p)` */
  function DefaultPowerPattern(f: string, p: int): string
  {
    f + "^" + IntToDecimal(p)
  }

  /** `lambda f1, f2: "%s * %s" % (f1, f2)` */
  function DefaultProductPattern(f1: string, f2: string): string
  {
    f1 + " * " + f2
  }

  /** `sep.join(fs)`, written from the left end. */
  function JoinWith(fs: seq<string>, sep: string): string
  {
    if fs == [] then "" else if |fs| == 1 then fs[0] else fs[0] + sep + JoinWith(fs[1..], sep)
  }

  /** Appending one more part to a join. */
  lemma {:induction false} JoinWithSnoc(fs: seq<string>, sep: string, f: string)
    requires fs != []
    ensures JoinWith(fs + [f], sep) == JoinWith(fs, sep) + sep + f
    decreases |fs|
  {
    if |fs| == 1 {
      assert fs + [f] == [fs[0], f];
    } else {
      assert (fs + [f])[1..] == fs[1..] + [f];
      JoinWithSnoc(fs[1..], sep, f);
    }
  }

  /**
   * With the default product pattern the left fold of the name loop is
   * `" * ".join(factors)`.
   */
  lemma {:induction false} DefaultJoin(fs: seq<string>)
    ensures JoinFactors(fs, DefaultProductPattern) == JoinWith(fs, " * ")
    decreases |fs|
  {
    if |fs| > 1 {
      var init := fs[..|fs| - 1];
      DefaultJoin(init);
      JoinWithSnoc(init, " * ", fs[|fs| - 1]);
      assert init + [fs[|fs| - 1]] == fs;
    }
  }

  /** With all defaults, the row [2, 0, 1] is named "x0^2 * x2". */
  lemma DefaultNameExample()
    ensures RowName([2, 0, 1], DefaultNames(3), DefaultPowerPattern, DefaultProductPattern) == "x0^2 * x2"
  {
    var names := DefaultNames(3);
    assert DigitChar(0) == '0' && DigitChar(1) == '1' && DigitChar(2) == '2';
    assert NatToDecimal(0) == "0" && NatToDecimal(1) == "1" && NatToDecimal(2) == "2";
    assert names[0] == "x0" && names[1] == "x1" && names[2] == "x2";
    assert names == ["x0", "x1", "x2"];
    assert IntToDecimal(2) == "2";
    assert names[..2][..1] == ["x0"] && names[..2] == ["x0", "x1"];
    assert DefaultPowerPattern("x0", 2) == "x0^2";
    var row := [2, 0, 1];
    assert names[..2][..1] == names[..1] && names[..1][..0] == [];
    assert Factors(row, names[..1], DefaultPowerPattern) == ["x0^2"];
    assert Factors(row, names[..2], DefaultPowerPattern) == ["x0^2"];
    var fs := Factors(row, names, DefaultPowerPattern);
    assert fs == ["x0^2", "x2"];
    assert fs[..1] == ["x0^2"];
    assert JoinFactors(fs, DefaultProductPattern) == DefaultProductPattern("x0^2", "x2");
  }

  // ---------------------------------------------------------------------
  // get_features: the names half
  // ---------------------------------------------------------------------

  /** `kwargs["names"] if kwargs.get("names") else [...]`: an empty list falls back too. */
  function ChooseNames(names: Option<seq<string>>, nfeatures: nat): seq<string>
  {
    if names.Some? && names.value != [] then names.value else DefaultNames(nfeatures)
  }

  function ChoosePowerPattern(powerPattern: Option<PowerPattern>): PowerPattern
  {
    if powerPattern.Some? then powerPattern.value else DefaultPowerPattern
  }

  function ChooseProductPattern(productPattern: Option<ProductPattern>): ProductPattern
  {
    if productPattern.Some? then productPattern.value else DefaultProductPattern
  }

  /**
   * The names get_features returns for nfeatures columns, one per row of
   * the exponent table (the ghost rows), in its order. With mix the table
   * is power_combinations: every exponent row of degree 1..maxPower once,
   * by nondecreasing degree. Without mix it is powers: power p = 1..maxPower
   * of each feature i, block by block, named by the feature's name and the
   * power pattern, or empty for a feature without a name. (When more names
   * than columns are given there are no rows to name.)
   */
  method GetFeatureNames(nfeatures: nat, maxPower: int, mix: bool, names: Option<seq<string>>,
                         powerPattern: Option<PowerPattern>,
                         productPattern: Option<ProductPattern>)
    returns (polyNames: seq<string>, ghost rows: seq<seq<int>>)
    requires mix ==> maxPower >= 0 || nfeatures == 0
    requires maxPower >= 1 && nfeatures >= 1 ==> |ChooseNames(names, nfeatures)| <= nfeatures
    ensures |polyNames| == |rows|
    ensures var ns, pp, prod := ChooseNames(names, nfeatures), ChoosePowerPattern(powerPattern),
                                ChooseProductPattern(productPattern);
      forall k :: 0 <= k < |rows| ==> |ns| <= |rows[k]| && polyNames[k] == RowName(rows[k], ns, pp, prod)
    ensures mix ==> forall v :: v in rows <==> IsExponentRow(nfeatures, maxPower, v)
    ensures mix ==> Distinct(rows) && SortedBy(rows, Sum)
    ensures var ns, pp, prod := ChooseNames(names, nfeatures), ChoosePowerPattern(powerPattern),
                                ChooseProductPattern(productPattern);
      mix && |ns| <= nfeatures ==>
        forall v :: IsExponentRow(nfeatures, maxPower, v) ==> RowName(v, ns, pp, prod) in polyNames
    ensures !mix ==> |polyNames| == nfeatures * (if maxPower < 0 then 0 else maxPower)
    ensures !mix ==>
      forall p, i :: 1 <= p <= maxPower && 0 <= i < nfeatures ==>
        PowerIndex(nfeatures, p, i) < |rows| && rows[PowerIndex(nfeatures, p, i)] == UnitRow(nfeatures, i, p)
    ensures var ns, pp := ChooseNames(names, nfeatures), ChoosePowerPattern(powerPattern);
      !mix && |ns| <= nfeatures ==>
        forall p, i :: 1 <= p <= maxPower && 0 <= i < |ns| ==>
          PowerIndex(nfeatures, p, i) < |polyNames| &&
          polyNames[PowerIndex(nfeatures, p, i)] == if p > 1 then pp(ns[i], p) else ns[i]
    ensures var ns := ChooseNames(names, nfeatures);
      !mix ==>
        forall p, i :: 1 <= p <= maxPower && |ns| <= i < nfeatures ==>
          PowerIndex(nfeatures, p, i) < |polyNames| && polyNames[PowerIndex(nfeatures, p, i)] == ""
  {
    var pp := ChoosePowerPattern(powerPattern);
    var prod := ChooseProductPattern(productPattern);
    var ns := ChooseNames(names, nfeatures);
    if mix {
      var powers := PowerCombinations(nfeatures, maxPower);
      forall k | 0 <= k < |powers| ensures |ns| <= |powers[k]| {
        assert powers[k] in powers;
        ExponentRowBounds(nfeatures, maxPower, powers[k]);
      }
      polyNames := PolyNames(powers, ns, pp, prod);
      rows := powers;
      if |ns| <= nfeatures {
        MixedNamesComplete(nfeatures, maxPower, powers, ns, pp, prod, polyNames);
      }
    } else {
      var powers := Powers(nfeatures, maxPower);
      if powers != [] {
        PowerRowExist(nfeatures, maxPower);
      }
      polyNames := PolyNames(powers, ns, pp, prod);
      rows := powers;
      if |ns| <= nfeatures {
        PowersNames(nfeatures, maxPower, powers, ns, pp, prod, polyNames);
      }
      PowersUnnamed(nfeatures, maxPower, powers, ns, pp, prod, polyNames);
    }
  }

  /** powers has rows only when there are features and maxPower >= 1. */
  lemma PowerRowExist(n: nat, maxPower: int)
    requires n * (if maxPower < 0 then 0 else maxPower) != 0
    ensures n >= 1 && maxPower >= 1
  {
  }

  /** Rows of degree 1..maxPower exist only when there are features and maxPower >= 1. */
  lemma ExponentRowBounds(n: nat, maxPower: int, v: seq<int>)
    requires IsExponentRow(n, maxPower, v)
    ensures n >= 1 && maxPower >= 1
  {
  }

  /** Naming each row power_combinations lists names every exponent row. */
  lemma MixedNamesComplete(n: nat, maxPower: int, powers: seq<seq<int>>, ns: seq<string>,
                           pp: PowerPattern, prod: ProductPattern, polyNames: seq<string>)
    requires forall v :: v in powers <==> IsExponentRow(n, maxPower, v)
    requires |ns| <= n && |polyNames| == |powers|
    requires forall k :: 0 <= k < |powers| ==> |ns| <= |powers[k]| && polyNames[k] == RowName(powers[k], ns, pp, prod)
    ensures forall v :: IsExponentRow(n, maxPower, v) ==> RowName(v, ns, pp, prod) in polyNames
  {
    forall v | IsExponentRow(n, maxPower, v) ensures RowName(v, ns, pp, prod) in polyNames {
      var k :| 0 <= k < |powers| && powers[k] == v;
      assert polyNames[k] == RowName(v, ns, pp, prod);
    }
  }

  /** Naming each row powers lists gives each feature's power its pattern, at its block position. */
  lemma PowersNames(n: nat, maxPower: int, powers: seq<seq<int>>, ns: seq<string>,
                    pp: PowerPattern, prod: ProductPattern, polyNames: seq<string>)
    requires |ns| <= n && |polyNames| == |powers|
    requires forall p, i :: 1 <= p <= maxPower && 0 <= i < n ==>
      PowerIndex(n, p, i) < |powers| && powers[PowerIndex(n, p, i)] == UnitRow(n, i, p)
    requires forall k :: 0 <= k < |powers| ==> |ns| <= |powers[k]| && polyNames[k] == RowName(powers[k], ns, pp, prod)
    ensures forall p, i :: 1 <= p <= maxPower && 0 <= i < |ns| ==>
      PowerIndex(n, p, i) < |polyNames| &&
      polyNames[PowerIndex(n, p, i)] == if p > 1 then pp(ns[i], p) else ns[i]
  {
    forall p, i | 1 <= p <= maxPower && 0 <= i < |ns|
      ensures PowerIndex(n, p, i) < |polyNames|
      ensures polyNames[PowerIndex(n, p, i)] == if p > 1 then pp(ns[i], p) else ns[i]
    {
      var unit := UnitRow(n, i, p);
      var k := PowerIndex(n, p, i);
      assert k < |powers| && powers[k] == unit;
      assert polyNames[k] == RowName(powers[k], ns, pp, prod);
      UnitRowName(n, ns, i, p, pp, prod);
    }
  }

  /** A feature past the end of the names contributes nothing: its powers get the empty name. */
  lemma PowersUnnamed(n: nat, maxPower: int, powers: seq<seq<int>>, ns: seq<string>,
                      pp: PowerPattern, prod: ProductPattern, polyNames: seq<string>)
    requires |polyNames| == |powers|
    requires forall p, i :: 1 <= p <= maxPower && 0 <= i < n ==>
      PowerIndex(n, p, i) < |powers| && powers[PowerIndex(n, p, i)] == UnitRow(n, i, p)
    requires forall k :: 0 <= k < |powers| ==> |ns| <= |powers[k]| && polyNames[k] == RowName(powers[k], ns, pp, prod)
    ensures forall p, i :: 1 <= p <= maxPower && |ns| <= i < n ==>
      PowerIndex(n, p, i) < |polyNames| && polyNames[PowerIndex(n, p, i)] == ""
  {
    forall p, i | 1 <= p <= maxPower && |ns| <= i < n
      ensures PowerIndex(n, p, i) < |polyNames| && polyNames[PowerIndex(n, p, i)] == ""
    {
      var unit := UnitRow(n, i, p);
      var k := PowerIndex(n, p, i);
      assert k < |powers| && powers[k] == unit;
      PowersRowsAreCombinations(n, maxPower, i, p);
      UnraisedRowName(unit, ns, pp, prod);
    }
  }
}
