/**
 * The height-filter compiler of the tx module indexer: it turns the height
 * information extracted from a search query into a SQL `WHERE` fragment with
 * numbered `$n` placeholders, the values bound to them and a placeholder
 * counter; it falls back to a cursor bounded by the chain tip, ignores every
 * non-height condition, and clamps the caller's limit.
 */
module QueryCompiler {
  import opened Wrappers

  type uint16 = x: int | 0 <= x < 0x1_0000

  /** The ceiling on the number of txs one search returns. */
  const TxSearchLimit: uint16 := 5000

  const MinInt64: int := -0x8000_0000_0000_0000
  const MaxInt64: int := 0x7fff_ffff_ffff_ffff

  // ---------------------------------------------------------------------------
  // Inputs: the height range and equality extracted from the query
  // ---------------------------------------------------------------------------

  /** A height range; each bound is optional and carries its own inclusivity flag. Bounds are the query's numbers. */
  datatype QueryRange = QueryRange(
    lowerBound: Option<real>, includeLowerBound: bool,
    upperBound: Option<real>, includeUpperBound: bool)

  /** The height information of a query: a range, and an equality height where 0 means "no equality". */
  datatype HeightInfo = HeightInfo(heightRange: QueryRange, height: int)

  /** A symbolic comparison of the query language, as the filter compiler receives it. */
  datatype CondOp = OpLeq | OpGeq | OpLt | OpGt | OpEq | OpContains | OpExists
  datatype Arg = NumberArg(number: real) | TextArg(text: string) | NoArg
  datatype Condition = Condition(tag: string, op: CondOp, arg: Arg)

  // ---------------------------------------------------------------------------
  // Outputs: SQL comparison operators, structured clauses and their text
  // ---------------------------------------------------------------------------

  datatype Op = Gt | Ge | Lt | Le | Eq

  function OpText(op: Op): string
  {
    match op
    case Gt => ">"
    case Ge => ">="
    case Lt => "<"
    case Le => "<="
    case Eq => "="
  }

  /** What the database does with `height <op> v`. */
  predicate OpHolds(op: Op, h: int, v: int)
  {
    match op
    case Gt => h > v
    case Ge => h >= v
    case Lt => h < v
    case Le => h <= v
    case Eq => h == v
  }

  /** One bound as `detectQueryRangeBound` produces it: an operator and its converted value. */
  datatype Bound = Bound(op: Op, value: int)

  /** One comparison `height <op> $placeholder`, with the value bound to the placeholder. */
  datatype Cond = Cond(op: Op, placeholder: nat, value: int)

  /** The structured result of the height compiler: its comparisons and the returned placeholder counter. */
  datatype WhereClause = WhereClause(conds: seq<Cond>, argsCount: int)

  /** The non-height filter table clause and its arguments. */
  datatype FilterTable = FilterTable(clause: string, args: seq<int>)

  // ---------------------------------------------------------------------------
  // Number formatting (`%d`)
  // ---------------------------------------------------------------------------

  function DigitChar(d: nat): (c: char)
    requires d < 10
    ensures '0' <= c <= '9'
  {
    "0123456789"[d]
  }

  function NatToDecimal(n: nat): (s: string)
    ensures |s| > 0
  {
    if n < 10 then [DigitChar(n)] else NatToDecimal(n / 10) + [DigitChar(n % 10)]
  }

  /** Go's `%d` of a signed integer: a minus sign for negatives, then the digits. */
  function IntToDecimal(n: int): (s: string)
    ensures |s| > 0
  {
    if n < 0 then "-" + NatToDecimal(-n) else NatToDecimal(n)
  }

  // ---------------------------------------------------------------------------
  // Bound conversion (`big.Float.Int64`, accuracy discarded)
  // ---------------------------------------------------------------------------

  function TruncateTowardZero(x: real): (t: int)
    ensures x >= 0.0 ==> t as real <= x < t as real + 1.0
    ensures x < 0.0 ==> t as real - 1.0 < x <= t as real
  {
    if x >= 0.0 then x.Floor else -((-x).Floor)
  }

  /** The bound truncated toward zero and saturated to the int64 range; the conversion never fails. */
  function BoundToInt64(x: real): (r: int)
    ensures MinInt64 <= r <= MaxInt64
  {
    var t := TruncateTowardZero(x);
    if t < MinInt64 then MinInt64 else if t > MaxInt64 then MaxInt64 else t
  }

  /** An integral real is its own truncation. */
  lemma TruncateIntegral(k: int)
    ensures TruncateTowardZero(k as real) == k
  {
    var t := TruncateTowardZero(k as real);
    if k >= 0 {
      assert t as real <= k as real < t as real + 1.0;
    } else {
      assert t as real - 1.0 < k as real <= t as real;
    }
  }

  /** What the conversion does: drop the fraction toward zero within int64, saturate outside it, and keep exact heights. */
  lemma BoundToInt64Meaning(x: real)
    ensures 0.0 <= x <= MaxInt64 as real ==> BoundToInt64(x) as real <= x < BoundToInt64(x) as real + 1.0
    ensures MinInt64 as real <= x < 0.0 ==> BoundToInt64(x) as real - 1.0 < x <= BoundToInt64(x) as real
    ensures x < MinInt64 as real ==> BoundToInt64(x) == MinInt64
    ensures x > MaxInt64 as real ==> BoundToInt64(x) == MaxInt64
    ensures IsExactHeight(x) ==> BoundToInt64(x) as real == x
  {
    var t := TruncateTowardZero(x);
    if IsExactHeight(x) {
      TruncateIntegral(x.Floor);
      assert x.Floor as real == x;
    }
    if MinInt64 as real <= x <= MaxInt64 as real {
      assert MinInt64 <= t <= MaxInt64;
    }
  }

  /** A bound that converts without loss: an integer within the int64 range. */
  predicate IsExactHeight(x: real)
  {
    x == x.Floor as real && MinInt64 as real <= x <= MaxInt64 as real
  }

  // ---------------------------------------------------------------------------
  // The compiler, as specification functions
  // ---------------------------------------------------------------------------

  function IsHeightRangeNotEmpty(r: QueryRange): (b: bool)
    ensures b <==> !(r.lowerBound.None? && r.upperBound.None?)
  {
    r.lowerBound.Some? || r.upperBound.Some?
  }

  function LowerOp(inclusive: bool): Op { if inclusive then Ge else Gt }

  function UpperOp(inclusive: bool): Op { if inclusive then Le else Lt }

  /** The bounds of a range in emission order: the lower bound (if any), then the upper bound (if any). */
  function RangeBounds(r: QueryRange): (bs: seq<Bound>)
    ensures |bs| <= 2
    ensures |bs| == (if r.lowerBound.Some? then 1 else 0) + (if r.upperBound.Some? then 1 else 0)
    ensures r.lowerBound.Some? ==> bs[0] == Bound(LowerOp(r.includeLowerBound), BoundToInt64(r.lowerBound.value))
    ensures r.upperBound.Some? ==> bs[|bs| - 1] == Bound(UpperOp(r.includeUpperBound), BoundToInt64(r.upperBound.value))
  {
    (if r.lowerBound.Some? then [Bound(LowerOp(r.includeLowerBound), BoundToInt64(r.lowerBound.value))] else [])
    + (if r.upperBound.Some? then [Bound(UpperOp(r.includeUpperBound), BoundToInt64(r.upperBound.value))] else [])
  }

  /** Bounds numbered `$first`, `$first+1`, ... in order. */
  function Numbered(bs: seq<Bound>, first: nat): (cs: seq<Cond>)
    ensures |cs| == |bs|
    ensures forall i :: 0 <= i < |cs| ==> cs[i] == Cond(bs[i].op, first + i, bs[i].value)
  {
    seq(|bs|, i requires 0 <= i < |bs| => Cond(bs[i].op, first + i, bs[i].value))
  }

  /** The clause `CreateHeightRangeWhereConditions` builds: a range first, else an equality on a nonzero height, else nothing. */
  function HeightWhere(info: HeightInfo): (w: WhereClause)
  {
    if IsHeightRangeNotEmpty(info.heightRange) then
      var bs := RangeBounds(info.heightRange);
      WhereClause(Numbered(bs, 1), 1 + |bs|)
    else if info.height != 0 then
      WhereClause([Cond(Eq, 1, info.height)], 1)
    else
      WhereClause([], 0)
  }

  /** The values bound to the placeholders, in placeholder order. */
  function Args(cs: seq<Cond>): (vs: seq<int>)
    ensures |vs| == |cs|
    ensures forall i :: 0 <= i < |cs| ==> vs[i] == cs[i].value
  {
    seq(|cs|, i requires 0 <= i < |cs| => cs[i].value)
  }

  /** The format ` height %s $%d` applied to an operator and a placeholder number. */
  function FormatComparison(operator: string, placeholder: nat): string
  {
    " height " + operator + " $" + NatToDecimal(placeholder)
  }

  /** The text of one comparison. */
  function CondText(c: Cond): string
  {
    FormatComparison(OpText(c.op), c.placeholder)
  }

  /** The text of the first n comparisons, each but the last followed by ` AND`. */
  function CondsText(cs: seq<Cond>, n: nat): string
    requires n <= |cs|
  {
    if n == 0 then ""
    else CondsText(cs, n - 1) + CondText(cs[n - 1]) + (if n == |cs| then "" else " AND")
  }

  /** The rendered clause: empty when there are no comparisons, else `WHERE` followed by the comparisons. */
  function Render(cs: seq<Cond>): string
  {
    if cs == [] then "" else "WHERE" + CondsText(cs, |cs|)
  }

  /** A height is selected by a compiled clause when every comparison holds with its bound value. */
  predicate ClauseAdmits(cs: seq<Cond>, h: int)
  {
    forall i :: 0 <= i < |cs| ==> OpHolds(cs[i].op, h, cs[i].value)
  }

  /** The meaning of a range as the query states it, over the query's own numbers. */
  predicate RangeAdmits(r: QueryRange, h: int)
  {
    && (r.lowerBound.Some? ==>
          if r.includeLowerBound then h as real >= r.lowerBound.value else h as real > r.lowerBound.value)
    && (r.upperBound.Some? ==>
          if r.includeUpperBound then h as real <= r.upperBound.value else h as real < r.upperBound.value)
  }

  /** The meaning of a HeightInfo: its range, and its equality when the height is nonzero. */
  predicate HeightInfoAdmits(info: HeightInfo, h: int)
  {
    RangeAdmits(info.heightRange, h) && (info.height != 0 ==> h == info.height)
  }

  predicate BoundsExact(r: QueryRange)
  {
    (r.lowerBound.Some? ==> IsExactHeight(r.lowerBound.value))
    && (r.upperBound.Some? ==> IsExactHeight(r.upperBound.value))
  }

  /** `createCursorPaginationCondition` with the chain tip as input: a non-empty clause passes through, an empty one becomes `WHERE height <= tip`, and no blocks at all is the "finding block height" error (None). */
  function CursorPaginationCondition(whereCondition: string, tip: Option<int>): (r: Option<string>)
    ensures r.None? <==> whereCondition == "" && tip.None?
    ensures r.Some? ==> r.value != ""
    ensures whereCondition != "" ==> r == Some(whereCondition)
    ensures whereCondition == "" && tip.Some? ==> r == Some("WHERE height <= " + IntToDecimal(tip.value))
  {
    if whereCondition != "" then Some(whereCondition)
    else if tip.None? then None
    else Some("WHERE height <= " + IntToDecimal(tip.value))
  }

  /** The filter for non-height conditions, which the indexer leaves unimplemented: always empty. */
  function CreateNonHeightConditionFilterTable(conditions: seq<Condition>, rangeIndexes: seq<int>, argsCount: int): (f: FilterTable)
    ensures f.clause == "" && f.args == []
  {
    FilterTable("", [])
  }

  /** The limit embedded in the query: the caller's limit clamped to TxSearchLimit. */
  function EffectiveLimit(limit: uint16): (r: uint16)
    ensures r <= TxSearchLimit && r <= limit
    ensures r == TxSearchLimit || r == limit
  {
    if limit < TxSearchLimit then limit else TxSearchLimit
  }

  // ---------------------------------------------------------------------------
  // The compiler as the indexer runs it: appends and a counting loop
  // ---------------------------------------------------------------------------

  /** `detectQueryRangeBound`: appends the lower bound's operator and value, then the upper bound's. */
  method DetectQueryRangeBound(r: QueryRange) returns (ops: seq<Op>, vals: seq<int>)
    ensures |ops| == |vals| == |RangeBounds(r)|
    ensures forall i :: 0 <= i < |ops| ==> Bound(ops[i], vals[i]) == RangeBounds(r)[i]
  {
    ops, vals := [], [];
    if r.lowerBound.Some? {
      var operator := Gt;
      if r.includeLowerBound {
        operator := Ge;
      }
      ops := ops + [operator];
      var val := BoundToInt64(r.lowerBound.value);
      vals := vals + [val];
    }
    if r.upperBound.Some? {
      var operator := Lt;
      if r.includeUpperBound {
        operator := Le;
      }
      ops := ops + [operator];
      var upper := BoundToInt64(r.upperBound.value);
      vals := vals + [upper];
    }
  }

  lemma ConcatAssoc<T>(a: seq<T>, b: seq<T>, c: seq<T>)
    ensures (a + b) + c == a + (b + c)
  {
  }

  lemma CondsTextStep(cs: seq<Cond>, i: nat)
    requires i < |cs|
    ensures CondsText(cs, i + 1) == CondsText(cs, i) + (CondText(cs[i]) + (if i + 1 == |cs| then "" else " AND"))
  {
  }

  /** The equality branch's format string renders the one-comparison clause. */
  lemma EqualityClauseText(h: int)
    ensures "WHERE height = $" + NatToDecimal(1) == Render([Cond(Eq, 1, h)])
  {
    var eq := [Cond(Eq, 1, h)];
    assert CondsText(eq, 1) == CondsText(eq, 0) + CondText(eq[0]) + "";
  }

  /** `CreateHeightRangeWhereConditions`: renders the clause, returns its values and the placeholder counter. */
  method CreateHeightRangeWhereConditions(info: HeightInfo) returns (whereConditions: string, vals: seq<int>, argsCount: int)
    ensures whereConditions == Render(HeightWhere(info).conds)
    ensures vals == Args(HeightWhere(info).conds)
    ensures argsCount == HeightWhere(info).argsCount
  {
    argsCount := 1;
    if IsHeightRangeNotEmpty(info.heightRange) {
      var value := info.heightRange;
      var ops, values := DetectQueryRangeBound(value);
      ghost var cs := Numbered(RangeBounds(value), 1);
      whereConditions := "WHERE";
      var i := 0;
      while i < |ops|
        invariant 0 <= i <= |ops| == |cs|
        invariant forall j :: 0 <= j < |ops| ==> cs[j] == Cond(ops[j], 1 + j, values[j])
        invariant argsCount == 1 + i
        invariant whereConditions == "WHERE" + CondsText(cs, i)
      {
        var piece := FormatComparison(OpText(ops[i]), argsCount);
        if i != |ops| - 1 {
          piece := piece + " AND";
        }
        assert piece == CondText(cs[i]) + (if i + 1 == |cs| then "" else " AND");
        CondsTextStep(cs, i);
        ConcatAssoc("WHERE", CondsText(cs, i), piece);
        whereConditions := whereConditions + piece;
        argsCount := argsCount + 1;
        i := i + 1;
      }
      vals := values;
      assert vals == Args(cs);
      assert HeightWhere(info) == WhereClause(cs, 1 + |cs|);
      assert whereConditions == Render(cs);
      return;
    }
    if info.height != 0 {
      EqualityClauseText(info.height);
      return "WHERE height = $" + NatToDecimal(argsCount), [info.height], argsCount;
    }
    return "", [], 0;
  }

  // ---------------------------------------------------------------------------
  // What the compiled clause means
  // ---------------------------------------------------------------------------

  /** Shape of the compiled clause: placeholders numbered from `$1`, one value per comparison, the counter one past the last placeholder for a range, 1 for an equality and 0 for nothing. */
  lemma HeightWhereShape(info: HeightInfo)
    ensures var w := HeightWhere(info);
      && |w.conds| <= 2
      && |Args(w.conds)| == |w.conds|
      && (forall i :: 0 <= i < |w.conds| ==> w.conds[i].placeholder == i + 1)
      && (IsHeightRangeNotEmpty(info.heightRange) ==>
            && 1 <= |w.conds|
            && w.argsCount == 1 + |w.conds|
            && Render(w.conds)[..5] == "WHERE")
      && (!IsHeightRangeNotEmpty(info.heightRange) && info.height != 0 ==>
            w.conds == [Cond(Eq, 1, info.height)] && w.argsCount == 1 && Args(w.conds) == [info.height])
      && (!IsHeightRangeNotEmpty(info.heightRange) && info.height == 0 ==>
            w.conds == [] && w.argsCount == 0 && Render(w.conds) == "")
  {
  }

  /** The lower bound's comparison, after conversion, selects exactly the heights the query's bound selects. */
  lemma LowerBoundExact(b: real, inclusive: bool, h: int)
    requires IsExactHeight(b)
    ensures OpHolds(LowerOp(inclusive), h, BoundToInt64(b))
        <==> (if inclusive then h as real >= b else h as real > b)
  {
    BoundToInt64Meaning(b);
  }

  lemma UpperBoundExact(b: real, inclusive: bool, h: int)
    requires IsExactHeight(b)
    ensures OpHolds(UpperOp(inclusive), h, BoundToInt64(b))
        <==> (if inclusive then h as real <= b else h as real < b)
  {
    BoundToInt64Meaning(b);
  }

  /** A range compiles to comparisons that select exactly the heights the range admits, when its bounds are exact heights. */
  lemma {:induction false} RangeClauseExact(r: QueryRange, h: int)
    requires BoundsExact(r)
    ensures ClauseAdmits(Numbered(RangeBounds(r), 1), h) <==> RangeAdmits(r, h)
  {
    var cs := Numbered(RangeBounds(r), 1);
    if r.lowerBound.Some? {
      LowerBoundExact(r.lowerBound.value, r.includeLowerBound, h);
      assert cs[0].op == LowerOp(r.includeLowerBound) && cs[0].value == BoundToInt64(r.lowerBound.value);
    }
    if r.upperBound.Some? {
      UpperBoundExact(r.upperBound.value, r.includeUpperBound, h);
      assert cs[|cs| - 1].op == UpperOp(r.includeUpperBound) && cs[|cs| - 1].value == BoundToInt64(r.upperBound.value);
    }
    if ClauseAdmits(cs, h) {
      if r.lowerBound.Some? { assert OpHolds(cs[0].op, h, cs[0].value); }
      if r.upperBound.Some? { assert OpHolds(cs[|cs| - 1].op, h, cs[|cs| - 1].value); }
    }
  }

  /** The range with each bound replaced by its int64 conversion: the range the compiled comparisons actually test. */
  function TruncatedRange(r: QueryRange): QueryRange
  {
    QueryRange(
      if r.lowerBound.Some? then Some(BoundToInt64(r.lowerBound.value) as real) else None, r.includeLowerBound,
      if r.upperBound.Some? then Some(BoundToInt64(r.upperBound.value) as real) else None, r.includeUpperBound)
  }

  /** A converted bound is an exact height, and converting it again changes nothing. */
  lemma ConvertedBoundIsExact(x: real)
    ensures IsExactHeight(BoundToInt64(x) as real)
    ensures BoundToInt64(BoundToInt64(x) as real) == BoundToInt64(x)
  {
    TruncateIntegral(BoundToInt64(x));
  }

  /** Any range, exact or not, compiles to comparisons that select exactly the heights of its truncated range. */
  lemma TruncatedRangeClause(r: QueryRange, h: int)
    ensures ClauseAdmits(Numbered(RangeBounds(r), 1), h) <==> RangeAdmits(TruncatedRange(r), h)
    ensures BoundsExact(r) ==> TruncatedRange(r) == r
  {
    var tr := TruncatedRange(r);
    if r.lowerBound.Some? {
      ConvertedBoundIsExact(r.lowerBound.value);
      BoundToInt64Meaning(r.lowerBound.value);
    }
    if r.upperBound.Some? {
      ConvertedBoundIsExact(r.upperBound.value);
      BoundToInt64Meaning(r.upperBound.value);
    }
    assert RangeBounds(tr) == RangeBounds(r);
    RangeClauseExact(tr, h);
  }

  /**
   * The key property of the compiler: a height satisfies the compiled clause exactly when it
   * satisfies the HeightInfo with its bounds truncated to int64 (which leaves exact bounds as
   * they are), provided the info does not carry both a range and an equality; when it does,
   * the range wins and the equality is dropped.
   */
  lemma CompiledClauseMeaning(info: HeightInfo, h: int)
    ensures !IsHeightRangeNotEmpty(info.heightRange) || info.height == 0 ==>
              (ClauseAdmits(HeightWhere(info).conds, h) <==>
               HeightInfoAdmits(info.(heightRange := TruncatedRange(info.heightRange)), h))
    ensures IsHeightRangeNotEmpty(info.heightRange) ==>
              (ClauseAdmits(HeightWhere(info).conds, h) <==> RangeAdmits(TruncatedRange(info.heightRange), h))
    ensures BoundsExact(info.heightRange) ==> TruncatedRange(info.heightRange) == info.heightRange
  {
    TruncatedRangeClause(info.heightRange, h);
    if !IsHeightRangeNotEmpty(info.heightRange) && info.height != 0 {
      var cs := HeightWhere(info).conds;
      assert cs == [Cond(Eq, 1, info.height)];
      assert ClauseAdmits(cs, h) <==> OpHolds(cs[0].op, h, cs[0].value);
    }
  }

  /** Truncation is not exact: `height >= 1.5` compiles to `height >= $1` with 1 bound, which admits height 1. */
  lemma FractionalBoundIsTruncated()
    ensures var info := HeightInfo(QueryRange(Some(1.5), true, None, false), 0);
      && HeightWhere(info).conds == [Cond(Ge, 1, 1)]
      && ClauseAdmits(HeightWhere(info).conds, 1)
      && !HeightInfoAdmits(info, 1)
  {
    var info := HeightInfo(QueryRange(Some(1.5), true, None, false), 0);
    assert TruncateTowardZero(1.5) == 1;
    assert HeightWhere(info).conds == [Cond(Ge, 1, 1)];
  }

  /** The cursor fallback is idempotent: applying it to its own output changes nothing, whatever the tip. */
  lemma CursorPaginationIdempotent(whereCondition: string, tip: Option<int>, tip': Option<int>)
    requires CursorPaginationCondition(whereCondition, tip).Some?
    ensures var w := CursorPaginationCondition(whereCondition, tip).value;
      CursorPaginationCondition(w, tip') == Some(w)
  {
  }
}
