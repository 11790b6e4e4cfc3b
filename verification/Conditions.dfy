/** WHERE conditions and their evaluation (src/DBEngine/services/condition-evaluator/src/evaluate.cpp). */
module Conditions {
  import opened Text
  import Like

  datatype LiteralType = Empty | Str | Number | NullVal | TrueVal | FalseVal

  /** A literal of a statement, as the parser hands it over: outer quotes still on. */
  datatype LiteralNode = LiteralNode(kind: LiteralType, value: string)

  datatype Comparator = Is | IsNot | Like | NotLike | Eq | Ne | Lt | Le | Gt | Ge

  /** The single condition of a WHERE clause; schemaIndex is resolved by the normalizer. */
  datatype Condition = Condition(column: string, cmp: Comparator, literal: LiteralNode, schemaIndex: nat)

  type Where = Option<Condition>

  /** A double: comparisons with a NaN are false. */
  datatype Double = NotANumber | MinusInfinity | Finite(x: real) | PlusInfinity {
    predicate Less(other: Double) {
      match (this, other)
      case (Finite(x), Finite(y)) => x < y
      case (MinusInfinity, Finite(_)) => true
      case (MinusInfinity, PlusInfinity) => true
      case (Finite(_), PlusInfinity) => true
      case _ => false
    }

    predicate LessOrEqual(other: Double) { Less(other) || (this == other && !NotANumber?) }
  }

  /** How the C library reads a string as a number (strtod): None unless it takes the whole string. Left open. */
  datatype Numbers = Numbers(read: string -> Option<Double>)

  datatype RuntimeType = NullType | Boolean | Numeric | Text

  function Classify(nums: Numbers, s: string): RuntimeType {
    if s == "" || s == "NULL" then NullType
    else if s == "TRUE" || s == "FALSE" then Boolean
    else if nums.read(s).Some? then Numeric
    else RuntimeType.Text
  }

  /** evaluateComparator. Whatever the runtime types, = holds of equal strings only and != is its negation. */
  predicate Evaluate(nums: Numbers, lhs: string, cmp: Comparator, literal: string): (r: bool)
    ensures cmp.Eq? ==> (r <==> lhs == Strip(literal))
    ensures cmp.Ne? ==> (r <==> lhs != Strip(literal))
  {
    var rhs := Strip(literal);
    var ltype, rtype := Classify(nums, lhs), Classify(nums, rhs);
    match cmp
    case Is => if ltype.Boolean? && rtype.Boolean? then rhs == lhs else ltype.NullType?
    case IsNot => if ltype.Boolean? && rtype.Boolean? then rhs != lhs else !ltype.NullType?
    case Like => ltype.Text? && Like.LikeMatches(lhs, rhs)
    case NotLike => ltype.Text? && !Like.LikeMatches(lhs, rhs)
    case Eq => ltype == rtype && lhs == rhs
    case Ne => ltype != rtype || lhs != rhs
    case Lt | Le | Gt | Ge =>
      ltype.Numeric? && rtype.Numeric? &&
      var l, r := nums.read(lhs).value, nums.read(rhs).value;
      match cmp
      case Lt => l.Less(r)
      case Le => l.LessOrEqual(r)
      case Gt => r.Less(l)
      case _ => r.LessOrEqual(l)
  }

  // ---- what the comparators mean ----

  predicate IsNull(v: string) { v == "" || v == "NULL" }

  predicate IsBoolean(v: string) { v == "TRUE" || v == "FALSE" }

  /** A value that is neither null, nor a boolean, nor a number. */
  predicate IsText(nums: Numbers, v: string) { !IsNull(v) && !IsBoolean(v) && nums.read(v).None? }

  /** What a comparator says of a stored value and the text of the literal. LIKE is the one defined by recursion on
      pattern and text. */
  predicate Meets(nums: Numbers, v: string, cmp: Comparator, text: string) {
    match cmp
    case Eq => v == text
    case Ne => v != text
    case Is => if IsBoolean(v) && IsBoolean(text) then v == text else IsNull(v)
    case IsNot => if IsBoolean(v) && IsBoolean(text) then v != text else !IsNull(v)
    case Like => IsText(nums, v) && Like.Like(text, v)
    case NotLike => IsText(nums, v) && !Like.Like(text, v)
    case Lt => Ranges(nums, v) && Ranges(nums, text) && nums.read(v).value.Less(nums.read(text).value)
    case Gt => Ranges(nums, v) && Ranges(nums, text) && nums.read(text).value.Less(nums.read(v).value)
    case Le => Ranges(nums, v) && Ranges(nums, text) && nums.read(v).value.LessOrEqual(nums.read(text).value)
    case Ge => Ranges(nums, v) && Ranges(nums, text) && nums.read(text).value.LessOrEqual(nums.read(v).value)
  }

  /** A value that the range comparators compare. */
  predicate Ranges(nums: Numbers, v: string) { !IsNull(v) && !IsBoolean(v) && nums.read(v).Some? }

  /** The evaluator answers every comparator as it is meant, of every value without line ends; with line ends too,
      unless the comparator is [NOT] LIKE. */
  lemma EvaluateMeans(nums: Numbers, v: string, cmp: Comparator, literal: string)
    requires cmp.Like? || cmp.NotLike? ==> Like.OneLine(v)
    ensures Evaluate(nums, v, cmp, literal) <==> Meets(nums, v, cmp, Strip(literal))
  {
    hide Like.LikeMatches, Like.Like, Like.OneLine, Strip;
    if cmp.Like? || cmp.NotLike? {
      LikeOnOneLine(v, Strip(literal));
    }
  }

  lemma LikeOnOneLine(text: string, pattern: string)
    requires Like.OneLine(text)
    ensures Like.LikeMatches(text, pattern) <==> Like.Like(pattern, text)
  {
    hide Like.LikeMatches, Like.Like, Like.OneLine;
    Like.LikeTranslationExact(text);
  }

  /** On finite numbers the four range comparators are those of the reals; on anything that is not a number all four
      are false. */
  lemma RangesMean(nums: Numbers, v: string, literal: string)
    requires !IsNull(v) && !IsBoolean(v) && !IsNull(Strip(literal)) && !IsBoolean(Strip(literal))
    ensures var a, b := nums.read(v), nums.read(Strip(literal));
            && (a.Some? && a.value.Finite? && b.Some? && b.value.Finite? ==>
                  && (Evaluate(nums, v, Lt, literal) <==> a.value.x < b.value.x)
                  && (Evaluate(nums, v, Le, literal) <==> a.value.x <= b.value.x)
                  && (Evaluate(nums, v, Gt, literal) <==> a.value.x > b.value.x)
                  && (Evaluate(nums, v, Ge, literal) <==> a.value.x >= b.value.x))
            && (a.None? || b.None? || a.value.NotANumber? || b.value.NotANumber? ==>
                  !Evaluate(nums, v, Lt, literal) && !Evaluate(nums, v, Le, literal) &&
                  !Evaluate(nums, v, Gt, literal) && !Evaluate(nums, v, Ge, literal))
  {
    hide Strip;
  }

  /** The condition read against the value at its schema index; no condition, or an index outside the row,
      accepts the row. */
  predicate Holds(nums: Numbers, where: Where, row: seq<string>) {
    where.Some? && where.value.schemaIndex < |row| ==>
      Evaluate(nums, row[where.value.schemaIndex], where.value.cmp, where.value.literal.value)
  }

  /** validateWhereClauseSemantics, for a column that exists: which literal each comparator takes. */
  predicate LiteralFits(cmp: Comparator, kind: LiteralType) {
    match cmp
    case Is | IsNot => kind.NullVal? || kind.TrueVal? || kind.FalseVal?
    case Like | NotLike => kind.Str?
    case Eq | Ne => kind.Number? || kind.Str?
    case Lt | Le | Gt | Ge => kind.Number?
  }

  /** isUniqueEqualityLookup: a condition `key = literal`. */
  predicate UniqueEqualityLookup(where: Where, keyColumn: string) {
    where.Some? && where.value.column == keyColumn && where.value.cmp.Eq?
  }
}
