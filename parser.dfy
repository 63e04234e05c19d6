/**
 * The query-clause parsers of the command-line application. A join clause is a
 * whitespace-separated list of `table.attribute:table.attribute` pairs, a filter clause an
 * `&`-separated list of `table.attribute op literal` conditions, and an index clause a
 * comma-separated list of `table.attribute` names. A clause that does not have this shape
 * fails the way the Kotlin code throws: a missing `:` or `.` or a missing part is an
 * index out of bounds, a bad literal a number-format error, an unknown comparison an
 * illegal state.
 */
module Parser {
  import opened Bytes
  import opened StorageApi
  import opened Text

  /** `f` applied to every element, in order; the first failure is the result. */
  function MapResult<A, B>(xs: seq<A>, f: A -> Result<B>): (r: Result<seq<B>>)
    ensures r.Ok? <==> forall i :: 0 <= i < |xs| ==> f(xs[i]).Ok?
    ensures r.Ok? ==> |r.value| == |xs| && forall i :: 0 <= i < |xs| ==> r.value[i] == f(xs[i]).value
    ensures r.Err? ==> exists i :: 0 <= i < |xs| && f(xs[i]) == Err(r.error) && forall k :: 0 <= k < i ==> f(xs[k]).Ok?
    decreases |xs|
  {
    if xs == [] then Ok([])
    else
      match f(xs[0])
      case Err(e) => Err(e)
      case Ok(y) =>
        match MapResult(xs[1..], f)
        case Err(e) =>
          ghost var i :| 0 <= i < |xs[1..]| && f(xs[1..][i]) == Err(e) && forall k :: 0 <= k < i ==> f(xs[1..][k]).Ok?;
          assert f(xs[i + 1]) == Err(e) && forall k :: 1 <= k < i + 1 ==> f(xs[k]) == f(xs[1..][k - 1]);
          Err(e)
        case Ok(ys) => Ok([y] + ys)
  }

  // ===========================================================================
  // Comparisons
  // ===========================================================================

  /** The comparisons `EQ`, `GT`, `LT`, `LE` and `GE`. */
  datatype Op = EQ | GT | LT | LE | GE

  /** `op.test(left, right)` on two `Int` literals. */
  predicate Holds(op: Op, left: int, right: int) {
    match op
    case EQ => left == right
    case GT => left > right
    case LT => left < right
    case LE => left <= right
    case GE => left >= right
  }

  /** The comparison a filter names: `=`, `>`, `<`, `<=` or `>=`; anything else is unsupported. */
  function OpOf(token: string): (r: Result<Op>)
    ensures r.Ok? <==> token in ["=", ">", "<", "<=", ">="]
    ensures r.Err? ==> r.error == IllegalState
  {
    if token == "=" then Ok(EQ)
    else if token == ">" then Ok(GT)
    else if token == "<" then Ok(LT)
    else if token == "<=" then Ok(LE)
    else if token == ">=" then Ok(GE)
    else Err(IllegalState)
  }

  /** How a comparison is written in a filter clause. */
  function OpToken(op: Op): (r: string)
    ensures OpOf(r) == Ok(op)
    ensures r != [] && forall k :: 0 <= k < |r| ==> !IsWhitespace(r[k]) && r[k] != '&'
  {
    match op
    case EQ => "="
    case GT => ">"
    case LT => "<"
    case LE => "<="
    case GE => ">="
  }

  /** The comparison holds of two values exactly when its converse holds of them swapped, and `LE`/`GE` add equality to `LT`/`GT`. */
  lemma HoldsConverse(left: int, right: int)
    ensures Holds(GT, left, right) <==> Holds(LT, right, left)
    ensures Holds(GE, left, right) <==> Holds(LE, right, left)
    ensures Holds(LE, left, right) <==> Holds(LT, left, right) || Holds(EQ, left, right)
    ensures Holds(GE, left, right) <==> Holds(GT, left, right) || Holds(EQ, left, right)
  {
  }

  // ===========================================================================
  // Names
  // ===========================================================================

  /** `table.attribute` split at its first `.`: no `.` is an index out of bounds. */
  function TableAndAttribute(s: string): (r: Result<(string, string)>)
    ensures r.Ok? <==> '.' in s
    ensures r.Ok? ==> r.value.0 + "." + r.value.1 == s && '.' !in r.value.0
    ensures r.Err? ==> r.error == IndexOutOfBounds
  {
    var parts := SplitFirst(s, '.');
    if |parts| < 2 then Err(IndexOutOfBounds) else Ok((parts[0], parts[1]))
  }

  /** A name that reads back as one table and one attribute: the table has no `.`. */
  lemma TableAndAttributeOf(table: string, attribute: string)
    requires '.' !in table
    ensures TableAndAttribute(table + "." + attribute) == Ok((table, attribute))
  {
    var s := table + "." + attribute;
    assert s[..|table|] == table;
    IndexOfAt(s, '.', |table|);
    assert s[|table| + 1..] == attribute;
  }

  // ===========================================================================
  // Filters
  // ===========================================================================

  /** A `FilterSpec`: the filtered attribute, the literal it is compared with, and the comparison. */
  datatype FilterSpec = FilterSpec(tableName: string, attributeName: string, attributeValue: int, op: Op, useIndex: bool)
  {
    /** The attribute's full name: as written when it holds a `.`, otherwise prefixed with the table. */
    function Attribute(): string {
      if '.' in attributeName then attributeName else tableName + "." + attributeName
    }
  }

  /** The full name of a filtered attribute reads back as its table and attribute. */
  lemma FilterAttributeOf(f: FilterSpec)
    requires '.' !in f.tableName && '.' !in f.attributeName
    ensures TableAndAttribute(f.Attribute()) == Ok((f.tableName, f.attributeName))
    ensures '.' in f.Attribute()
  {
    TableAndAttributeOf(f.tableName, f.attributeName);
  }

  /**
   * One condition: trimmed, split into at most three whitespace-separated parts (the third
   * keeps the rest), the first split into table and attribute, the literal read with
   * `toInt()` and the comparison looked up, in that order.
   */
  function ParseCondition(condition: string): (r: Result<FilterSpec>)
    ensures r.Ok? ==> !r.value.useIndex && IsInt32(r.value.attributeValue)
  {
    var parts := SplitRuns(Trim(condition), Spaces, 3);
    if |parts| < 3 then Err(IndexOutOfBounds)
    else
      match TableAndAttribute(parts[0])
      case Err(e) => Err(e)
      case Ok((table, attribute)) =>
        match ToInt(Trim(parts[2]))
        case Err(e) => Err(e)
        case Ok(literal) =>
          match OpOf(Trim(parts[1]))
          case Err(e) => Err(e)
          case Ok(op) => Ok(FilterSpec(Trim(table), Trim(attribute), literal, op, false))
  }

  /** `parseFilterClause`: a blank clause has no filters; otherwise every `&`-separated condition is one. */
  function ParseFilterClause(clause: string): (r: Result<seq<FilterSpec>>)
    ensures Blank(clause) ==> r == Ok([])
    ensures !Blank(clause) ==> r == MapResult(SplitRuns(clause, Ampersands, 0), ParseCondition)
  {
    if Blank(clause) then Ok([]) else MapResult(SplitRuns(clause, Ampersands, 0), ParseCondition)
  }

  /** A string of non-whitespace characters other than `&`. */
  predicate Plain(s: string) {
    forall k :: 0 <= k < |s| ==> !IsWhitespace(s[k]) && s[k] != '&'
  }

  /** A filter a clause can spell: names without whitespace or `&`, and a table without `.`. */
  predicate Spellable(f: FilterSpec) {
    Word(f.tableName, {'&', '.'}) && Word(f.attributeName, {'&'}) && IsInt32(f.attributeValue) && !f.useIndex
  }

  /** How a filter is written: `table.attribute op literal`. */
  function ConditionText(f: FilterSpec): string {
    f.tableName + "." + f.attributeName + " " + OpToken(f.op) + " " + Decimal(f.attributeValue)
  }

  /** A condition written out parses back to the filter it was written from, and holds no `&`. */
  lemma ParseConditionText(f: FilterSpec)
    requires Spellable(f)
    ensures ParseCondition(ConditionText(f)) == Ok(f)
    ensures ConditionText(f) != [] && NoSep(ConditionText(f), Ampersands) && !IsWhitespace(ConditionText(f)[0])
  {
    ConditionParts(f);
    var parts := SplitRuns(Trim(ConditionText(f)), Spaces, 3);
    TableAndAttributeOf(f.tableName, f.attributeName);
    WordTrims(f.tableName, {'&', '.'});
    WordTrims(f.attributeName, {'&'});
    assert TableAndAttribute(parts[0]) == Ok((f.tableName, f.attributeName));
    WordTrims(OpToken(f.op), {'&'});
    assert OpOf(Trim(parts[1])) == Ok(f.op);
    DecimalWord(f.attributeValue);
    WordTrims(Decimal(f.attributeValue), {'&'});
    ToIntDecimal(f.attributeValue);
    assert ToInt(Trim(parts[2])) == Ok(f.attributeValue);
    NoAmpersand(ConditionText(f));
  }

  /** A written condition trims to itself and splits into its name, its comparison and its literal. */
  lemma ConditionParts(f: FilterSpec)
    requires Spellable(f)
    ensures var s := ConditionText(f);
      SplitRuns(Trim(s), Spaces, 3) == [f.tableName + "." + f.attributeName, OpToken(f.op), Decimal(f.attributeValue)]
      && s != [] && '&' !in s
  {
    ConditionTrims(f);
    var name := f.tableName + "." + f.attributeName;
    var op := OpToken(f.op);
    var literal := Decimal(f.attributeValue);
    assert Word(name, {'&'});
    WordNoSep(name, {'&'});
    assert Word(op, {'&'});
    WordNoSep(op, {'&'});
    DecimalWord(f.attributeValue);
    SplitThree(name, op, literal);
  }

  /** A written condition neither starts nor ends with whitespace, and holds no `&`. */
  lemma ConditionTrims(f: FilterSpec)
    requires Spellable(f)
    ensures var s := ConditionText(f); Trim(s) == s && s != [] && '&' !in s && !IsWhitespace(s[0])
  {
    var name := f.tableName + "." + f.attributeName;
    var literal := Decimal(f.attributeValue);
    var s := ConditionText(f);
    NameEnds(f.tableName, f.attributeName);
    DecimalWord(f.attributeValue);
    assert s[0] == name[0] && s[|s| - 1] == literal[|literal| - 1];
    TrimUnchanged(s);
  }

  /** `table.attribute` starts and ends with something other than whitespace. */
  lemma NameEnds(table: string, attribute: string)
    requires Word(table, {}) && Word(attribute, {})
    ensures var name := table + "." + attribute; !IsWhitespace(name[0]) && !IsWhitespace(name[|name| - 1])
  {
    var name := table + "." + attribute;
    assert name[0] in name && name[|name| - 1] in name;
  }

  /** A written number is a word without `&` that starts with a sign or a digit and ends with a digit. */
  lemma DecimalWord(v: int)
    ensures var t := Decimal(v); Word(t, {'&'}) && !IsWhitespace(t[0]) && IsDigit(t[|t| - 1])
  {
    var t := Decimal(v);
    var d := Digits(if v < 0 then -v else v);
    assert t == (if v < 0 then "-" else "") + d;
    assert t[|t| - 1] == d[|d| - 1];
    assert forall k :: 0 <= k < |t| ==> t[k] == '-' || '0' <= t[k] <= '9';
    NumeralWord(t);
  }

  /** A filter clause written from filters, joined by `&`, parses back to those filters. */
  lemma ParseFilterClauseText(fs: seq<FilterSpec>)
    requires forall i :: 0 <= i < |fs| ==> Spellable(fs[i])
    ensures ParseFilterClause(FilterClauseText(fs)) == Ok(fs)
  {
    var texts := seq(|fs|, i requires 0 <= i < |fs| => ConditionText(fs[i]));
    forall i | 0 <= i < |fs|
      ensures texts[i] != [] && NoSep(texts[i], Ampersands) && ParseCondition(texts[i]) == Ok(fs[i])
      ensures !IsWhitespace(texts[i][0])
    {
      ParseConditionText(fs[i]);
    }
    if fs != [] {
      SplitRunsJoin(texts, '&', Ampersands);
      MapResultOk(texts, ParseCondition, fs);
      JoinPrefix(texts, '&');
      NotBlank(Join(texts, '&'), 0);
    }
  }

  /** The conditions written one after another, separated by `&`. */
  function FilterClauseText(fs: seq<FilterSpec>): string {
    Join(seq(|fs|, i requires 0 <= i < |fs| => ConditionText(fs[i])), '&')
  }

  // ===========================================================================
  // Joins
  // ===========================================================================

  /**
   * A `JoinSpec`: one side of a join. The table name may list several tables separated by
   * commas, of which names starting with `@` are not real tables. A filter can be attached later.
   */
  class JoinSpec {
    const tableName: string
    const attributeName: string
    var filter: Option<FilterSpec>

    constructor (tableName: string, attributeName: string)
      ensures this.tableName == tableName && this.attributeName == attributeName && filter == None
    {
      this.tableName := tableName;
      this.attributeName := attributeName;
      filter := None;
    }

    /** `realTables`: the comma-separated table names that do not start with `@`, in order. */
    function RealTables(): seq<string> {
      RealNames(Split(tableName, ','))
    }

    /** The attribute's full name: as written when it holds a `.`, otherwise prefixed with the real tables. */
    function Attribute(): string {
      if '.' in attributeName then attributeName else Join(RealTables(), ',') + "." + attributeName
    }

    /** `filterBy`: the filter is attached; the names stay. */
    method FilterBy(f: FilterSpec)
      modifies this
      ensures filter == Some(f)
    {
      filter := Some(f);
    }
  }

  /** A table name starting with `@` is not a real table. */
  predicate Hidden(name: string) {
    |name| >= 1 && name[0] == '@'
  }

  /** The names that are not hidden, in order. */
  function RealNames(names: seq<string>): (r: seq<string>)
    ensures |r| <= |names|
    ensures forall n :: n in r <==> n in names && !Hidden(n)
    decreases |names|
  {
    if names == [] then []
    else
      var front := RealNames(names[..|names| - 1]);
      var last := names[|names| - 1];
      assert names == names[..|names| - 1] + [last];
      if Hidden(last) then front else front + [last]
  }

  /** For one real table and an attribute without `.`, the full name reads back as that table and attribute. */
  lemma JoinAttributeOf(spec: JoinSpec)
    requires ',' !in spec.tableName && '.' !in spec.tableName && !Hidden(spec.tableName)
    requires '.' !in spec.attributeName
    ensures TableAndAttribute(spec.Attribute()) == Ok((spec.tableName, spec.attributeName))
  {
    assert Split(spec.tableName, ',') == [spec.tableName];
    assert RealNames([spec.tableName]) == [spec.tableName] by {
      assert [spec.tableName][..0] == [];
    }
    TableAndAttributeOf(spec.tableName, spec.attributeName);
  }

  /** One side of a join pair, as `parseJoinClause` reads it: a table and an attribute. */
  datatype JoinName = JoinName(table: string, attribute: string)

  function ParseJoinName(s: string): (r: Result<JoinName>)
    ensures r.Ok? <==> '.' in s
    ensures r.Err? ==> r.error == IndexOutOfBounds
  {
    match TableAndAttribute(s)
    case Err(e) => Err(e)
    case Ok((table, attribute)) => Ok(JoinName(table, attribute))
  }

  /** One pair: the parts before and after the first `:`, each a name; no `:` is an index out of bounds. */
  function ParseJoinPair(token: string): (r: Result<(JoinName, JoinName)>)
    ensures r.Ok? <==> ':' in token && '.' in SplitFirst(token, ':')[0] && '.' in SplitFirst(token, ':')[1]
    ensures r.Err? ==> r.error == IndexOutOfBounds
  {
    var sides := SplitFirst(token, ':');
    if |sides| < 2 then Err(IndexOutOfBounds)
    else
      match ParseJoinName(sides[0])
      case Err(e) => Err(e)
      case Ok(left) =>
        match ParseJoinName(sides[1])
        case Err(e) => Err(e)
        case Ok(right) => Ok((left, right))
  }

  /**
   * What `parseJoinClause` reads: nothing from a blank clause, otherwise one pair per
   * whitespace-separated token. A clause with whitespace at either end has an empty token
   * there, which is not a pair.
   */
  function ParseJoinNames(clause: string): (r: Result<seq<(JoinName, JoinName)>>)
    ensures Blank(clause) ==> r == Ok([])
    ensures !Blank(clause) ==> r == MapResult(SplitRuns(clause, Spaces, 0), ParseJoinPair)
    ensures r.Err? ==> r.error == IndexOutOfBounds
  {
    if Blank(clause) then Ok([]) else MapResult(SplitRuns(clause, Spaces, 0), ParseJoinPair)
  }

  /** A join clause that is not blank but starts or ends with whitespace fails: the empty piece there has no `:`. */
  lemma JoinClauseEdgeSpace(clause: string)
    requires !Blank(clause) && (IsSep(Spaces, clause[0]) || IsSep(Spaces, clause[|clause| - 1]))
    ensures ParseJoinNames(clause) == Err(IndexOutOfBounds)
  {
    SplitRunsEdges(clause, Spaces);
    var pieces := SplitRuns(clause, Spaces, 0);
    var k := if IsSep(Spaces, clause[0]) then 0 else |pieces| - 1;
    assert pieces[k] == [];
    assert ParseJoinPair(pieces[k]).Err?;
  }

  /**
   * `parseJoinClause`: the pairs read from the clause, each side a new `JoinSpec` without
   * a filter, or the error that reading them gives.
   */
  method ParseJoinClause(clause: string) returns (r: Result<seq<(JoinSpec, JoinSpec)>>)
    ensures ParseJoinNames(clause).Err? ==> r == Err(ParseJoinNames(clause).error)
    ensures ParseJoinNames(clause).Ok? ==> r.Ok? && |r.value| == |ParseJoinNames(clause).value|
    ensures ParseJoinNames(clause).Ok? ==> forall i :: 0 <= i < |r.value| ==>
      Names(r.value[i], ParseJoinNames(clause).value[i]) && r.value[i].0.filter == None && r.value[i].1.filter == None
      && fresh(r.value[i].0) && fresh(r.value[i].1)
  {
    var names := ParseJoinNames(clause);
    if names.Err? {
      return Err(names.error);
    }
    var pairs := NewSpecsAll(names.value);
    r := Ok(pairs);
  }

  /** A new pair of join specs for each pair of names, in order. */
  method NewSpecsAll(names: seq<(JoinName, JoinName)>) returns (pairs: seq<(JoinSpec, JoinSpec)>)
    ensures |pairs| == |names|
    ensures forall k :: 0 <= k < |pairs| ==>
      Names(pairs[k], names[k]) && pairs[k].0.filter == None && pairs[k].1.filter == None
      && fresh(pairs[k].0) && fresh(pairs[k].1)
  {
    pairs := [];
    var i := 0;
    while i < |names|
      invariant 0 <= i <= |names| && |pairs| == i
      invariant forall k :: 0 <= k < i ==> fresh(pairs[k].0) && fresh(pairs[k].1)
      invariant forall k :: 0 <= k < i ==> Names(pairs[k], names[k])
      invariant forall k :: 0 <= k < i ==> pairs[k].0.filter == None && pairs[k].1.filter == None
    {
      var pair := NewSpecs(names[i]);
      pairs := pairs + [pair];
      i := i + 1;
    }
  }

  /** The two join specs of a pair read from a clause. */
  method NewSpecs(names: (JoinName, JoinName)) returns (specs: (JoinSpec, JoinSpec))
    ensures fresh(specs.0) && fresh(specs.1) && Names(specs, names) && specs.0.filter == None && specs.1.filter == None
  {
    var left := new JoinSpec(names.0.table, names.0.attribute);
    var right := new JoinSpec(names.1.table, names.1.attribute);
    specs := (left, right);
  }

  /** A pair of join specs carries the names read from the clause. */
  predicate Names(specs: (JoinSpec, JoinSpec), names: (JoinName, JoinName)) {
    specs.0.tableName == names.0.table && specs.0.attributeName == names.0.attribute
    && specs.1.tableName == names.1.table && specs.1.attributeName == names.1.attribute
  }

  /** A join name a clause can spell: no whitespace and no `:`, and a table without `.`. */
  predicate SpellableName(n: JoinName) {
    Word(n.table, {':', '.'}) && Word(n.attribute, {':'})
  }

  /** How a pair is written: `table.attribute:table.attribute`. */
  function PairText(p: (JoinName, JoinName)): string {
    p.0.table + "." + p.0.attribute + ":" + p.1.table + "." + p.1.attribute
  }

  /** The pairs written one after another, separated by spaces. */
  function JoinClauseText(pairs: seq<(JoinName, JoinName)>): string {
    Join(seq(|pairs|, i requires 0 <= i < |pairs| => PairText(pairs[i])), ' ')
  }

  /** A written pair parses back to the pair and holds no whitespace. */
  lemma ParsePairText(p: (JoinName, JoinName))
    requires SpellableName(p.0) && SpellableName(p.1)
    ensures ParseJoinPair(PairText(p)) == Ok(p)
    ensures PairText(p) != [] && NoSep(PairText(p), Spaces)
  {
    var left := p.0.table + "." + p.0.attribute;
    var right := p.1.table + "." + p.1.attribute;
    var s := PairText(p);
    assert s == left + ":" + right;
    assert Word(left, {':'}) && Word(right, {':'});
    assert s[..|left|] == left;
    IndexOfAt(s, ':', |left|);
    assert s[|left| + 1..] == right;
    TableAndAttributeOf(p.0.table, p.0.attribute);
    TableAndAttributeOf(p.1.table, p.1.attribute);
    assert Word(s, {});
    WordNoSep(s, {});
  }

  /** A join clause written from pairs parses back to those pairs. */
  lemma ParseJoinClauseText(pairs: seq<(JoinName, JoinName)>)
    requires forall i :: 0 <= i < |pairs| ==> SpellableName(pairs[i].0) && SpellableName(pairs[i].1)
    ensures ParseJoinNames(JoinClauseText(pairs)) == Ok(pairs)
  {
    var texts := seq(|pairs|, i requires 0 <= i < |pairs| => PairText(pairs[i]));
    forall i | 0 <= i < |pairs|
      ensures texts[i] != [] && NoSep(texts[i], Spaces) && ParseJoinPair(texts[i]) == Ok(pairs[i])
    {
      ParsePairText(pairs[i]);
    }
    if pairs != [] {
      SplitRunsJoin(texts, ' ', Spaces);
      MapResultOk(texts, ParseJoinPair, pairs);
      JoinPrefix(texts, ' ');
      NameEnds(pairs[0].0.table, pairs[0].0.attribute);
      assert texts[0][0] == (pairs[0].0.table + "." + pairs[0].0.attribute)[0];
      NotBlank(Join(texts, ' '), 0);
    }
  }

  /** Every element that maps to a value makes the whole map that list of values. */
  lemma MapResultOk<A, B>(xs: seq<A>, f: A -> Result<B>, ys: seq<B>)
    requires |xs| == |ys| && forall i :: 0 <= i < |xs| ==> f(xs[i]) == Ok(ys[i])
    ensures MapResult(xs, f) == Ok(ys)
  {
    assert MapResult(xs, f).value == ys;
  }

  /** A join begins with its first piece. */
  lemma JoinPrefix(parts: seq<string>, d: char)
    requires |parts| >= 1
    ensures parts[0] <= Join(parts, d)
  {
    if |parts| > 1 {
      assert Join(parts, d) == parts[0] + ([d] + Join(parts[1..], d));
    }
  }

  // ===========================================================================
  // Indexes
  // ===========================================================================

  /** An `IndexSpec`: the attribute an index is built on. */
  datatype IndexSpec = IndexSpec(tableName: string, attributeName: string)

  /** One index name: trimmed, then split at its first `.`. */
  function ParseIndexSpec(s: string): (r: Result<IndexSpec>)
    ensures r.Ok? <==> '.' in Trim(s)
    ensures r.Ok? ==> r.value.tableName + "." + r.value.attributeName == Trim(s)
    ensures r.Err? ==> r.error == IndexOutOfBounds
  {
    match TableAndAttribute(Trim(s))
    case Err(e) => Err(e)
    case Ok((table, attribute)) => Ok(IndexSpec(table, attribute))
  }

  /** `parseIndexClause`: nothing from a blank clause, otherwise one index per comma-separated name. */
  function ParseIndexClause(clause: string): (r: Result<seq<IndexSpec>>)
    ensures Blank(clause) ==> r == Ok([])
    ensures !Blank(clause) ==> r == MapResult(Split(clause, ','), ParseIndexSpec)
    ensures r.Err? ==> r.error == IndexOutOfBounds
  {
    if Blank(clause) then Ok([]) else MapResult(Split(clause, ','), ParseIndexSpec)
  }

  /** An index a clause can spell: no whitespace or `,`, and a table without `.`. */
  predicate SpellableIndex(x: IndexSpec) {
    Word(x.tableName, {',', '.'}) && Word(x.attributeName, {','})
  }

  function IndexText(x: IndexSpec): string {
    x.tableName + "." + x.attributeName
  }

  /** The names written one after another, separated by commas. */
  function IndexClauseText(xs: seq<IndexSpec>): string {
    Join(seq(|xs|, i requires 0 <= i < |xs| => IndexText(xs[i])), ',')
  }

  /** A written index name parses back to the index. */
  lemma ParseIndexText(x: IndexSpec)
    requires SpellableIndex(x)
    ensures ParseIndexSpec(IndexText(x)) == Ok(x)
    ensures ',' !in IndexText(x)
  {
    NameEnds(x.tableName, x.attributeName);
    TrimUnchanged(IndexText(x));
    TableAndAttributeOf(x.tableName, x.attributeName);
  }

  /** An index clause written from index names parses back to them. */
  lemma ParseIndexClauseText(xs: seq<IndexSpec>)
    requires forall i :: 0 <= i < |xs| ==> SpellableIndex(xs[i])
    ensures ParseIndexClause(IndexClauseText(xs)) == Ok(xs)
  {
    if xs == [] {
      return;
    }
    var texts := seq(|xs|, i requires 0 <= i < |xs| => IndexText(xs[i]));
    forall i | 0 <= i < |xs|
      ensures ',' !in texts[i] && ParseIndexSpec(texts[i]) == Ok(xs[i])
    {
      ParseIndexText(xs[i]);
    }
    SplitJoin(texts, ',');
    MapResultOk(texts, ParseIndexSpec, xs);
    JoinPrefix(texts, ',');
    NameEnds(xs[0].tableName, xs[0].attributeName);
    NotBlank(Join(texts, ','), 0);
  }
}
