/** A parse as one value: what the semantic actions of src/parser/sql.ypp do to the parser's stack and
    to the flags of src/parser/parser.cpp, and what the actions for whole conditions come to. */
module Grammar {
  import opened Expressions

  /** One step of the parser: a token the lexer delivers, or a reduction. */
  datatype Action =
    | ShiftName(text: string)         // STRING, NAME
    | ShiftText(text: string)         // Q_STRING, DQ_STRING
    | ShiftNumber(value: int)         // INTEGER, VARIABLE, NULL, TRUE, FALSE, UNKNOWN
    | ReduceQualified                 // table_field: name DOT name
    | ReduceField                     // field: table_field
    | ReduceText                      // const_value: Q_STRING
    | ReduceNumber                    // const_value: INTEGER
    | ReduceNoArgCall                 // field: simple_fn
    | ReduceCall                      // fn: STRING O_BRACE fn_args C_BRACE
    | ReduceMerge                     // math_exp: math_exp op field, fn_args: fn_args COMMA fn_args, and others
    | ReduceTruth                     // logical_exp: math_exp
    | ReduceCompare                   // logical_exp: math_exp comp_operator math_exp
    | ReduceStar                      // select_exp: MULTIPLY
    | ReduceTable                     // simple_table: STRING, select_exp: STRING DOT MULTIPLY
    | CompareAt(left: nat, right: nat) // cmp_fn on two values that stay: CASE, BETWEEN
    | FlagTautology                   // logical_exp: three expressions compared in a row
    | Discard                         // the last value, ignored by its rule
    | DiscardUnder                    // the last value but one

  /** What a value on the stack stands for. */
  datatype Item = Name(text: string) | Sum(summary: Summary) | Figure(value: int)

  datatype Sketch = Sketch(items: seq<Item>, tautology: bool, emptyPwd: bool)

  const START := Sketch([], false, false)

  predicate IsName(k: Sketch, i: nat) {
    i < |k.items| && k.items[|k.items| - 1 - i].Name?
  }

  predicate IsSum(k: Sketch, i: nat) {
    i < |k.items| && k.items[|k.items| - 1 - i].Sum?
  }

  /** The i-th item from the top, and the stack below the top i. */
  function TopItem(k: Sketch, i: nat): Item
    requires i < |k.items|
  {
    k.items[|k.items| - 1 - i]
  }

  function Below(k: Sketch, i: nat): seq<Item>
    requires i <= |k.items|
  {
    k.items[..|k.items| - i]
  }

  /** Do the items fit the action?  When they do not, the parser reports a syntax error. */
  predicate Accepts(k: Sketch, a: Action) {
    match a
    case ShiftName(_) => true
    case ShiftText(_) => true
    case ShiftNumber(_) => true
    case ReduceQualified => IsName(k, 0) && IsName(k, 1)
    case ReduceField => IsName(k, 0)
    case ReduceText => IsName(k, 0)
    case ReduceNumber => k.items != [] && TopItem(k, 0).Figure?
    case ReduceNoArgCall => IsName(k, 0)
    case ReduceCall => IsSum(k, 0) && IsName(k, 1)
    case ReduceMerge => IsSum(k, 0) && IsSum(k, 1)
    case ReduceTruth => IsSum(k, 0)
    case ReduceCompare => IsSum(k, 0) && IsSum(k, 1)
    case ReduceStar => true
    case ReduceTable => IsName(k, 0)
    case CompareAt(l, r) => IsSum(k, l) && IsSum(k, r)
    case FlagTautology => true
    case Discard => k.items != []
    case DiscardUnder => |k.items| >= 2
  }

  function FieldSummary(name: string, fixed: string -> bool): Summary {
    if fixed(name) then Summary({}, true, String, 4) else Summary({name}, false, Undef, 0)
  }

  /** cmp_fn. */
  ghost function Compared(k: Sketch, l: Summary, r: Summary): Sketch {
    k.(tautology := k.tautology || Similar(l, r),
       emptyPwd := k.emptyPwd || (!Similar(l, r) && ComparesEmptyPassword(l, r)))
  }

  ghost function After(k: Sketch, a: Action, fixed: string -> bool): Sketch
    requires Accepts(k, a)
  {
    match a
    case ShiftName(t) => k.(items := k.items + [Name(t)])
    case ShiftText(t) => k.(items := k.items + [Name(t)])
    case ShiftNumber(v) => k.(items := k.items + [Figure(v)])
    case ReduceQualified => k.(items := Below(k, 2) + [TopItem(k, 0)])
    case ReduceField => k.(items := Below(k, 1) + [Sum(FieldSummary(TopItem(k, 0).text, fixed))])
    case ReduceText => k.(items := Below(k, 1) + [Sum(Summary({}, true, String, |TopItem(k, 0).text|))])
    case ReduceNumber => k.(items := Below(k, 1) + [Sum(Summary({}, true, Integer, 0))])
    case ReduceNoArgCall => k.(items := Below(k, 1) + [Sum(Summary({}, true, String, 4))])
    case ReduceCall => k.(items := Below(k, 2) + [TopItem(k, 0)])
    case ReduceMerge => k.(items := Below(k, 2) + [Sum(Join(TopItem(k, 1).summary, TopItem(k, 0).summary))])
    case ReduceTruth =>
      var e := TopItem(k, 0).summary;
      k.(items := Below(k, 1), tautology := k.tautology || (e.fields == {} && e.hasConst))
    case ReduceCompare => Compared(k, TopItem(k, 1).summary, TopItem(k, 0).summary).(items := Below(k, 2))
    case ReduceStar => k.(items := k.items + [Sum(Summary({}, false, Undef, 0))])
    case ReduceTable => k.(items := Below(k, 1) + [Sum(Summary({TopItem(k, 0).text}, false, Undef, 0))])
    case CompareAt(l, r) => Compared(k, TopItem(k, l).summary, TopItem(k, r).summary)
    case FlagTautology => k.(tautology := true)
    case Discard => k.(items := Below(k, 1))
    case DiscardUnder => k.(items := Below(k, 2) + [TopItem(k, 0)])
  }

  /** A whole list of actions, up to the first one that does not fit. */
  ghost function Parsed(k: Sketch, actions: seq<Action>, fixed: string -> bool): Sketch
    decreases |actions|
  {
    if actions == [] || !Accepts(k, actions[0]) then k
    else Parsed(After(k, actions[0], fixed), actions[1..], fixed)
  }

  /** They all fit. */
  ghost predicate Complete(k: Sketch, actions: seq<Action>, fixed: string -> bool)
    decreases |actions|
  {
    actions == [] || (Accepts(k, actions[0]) && Complete(After(k, actions[0], fixed), actions[1..], fixed))
  }

  lemma AtStart(fixed: string -> bool)
    ensures Complete(START, [], fixed) && Parsed(START, [], fixed) == START
  {
  }

  lemma {:induction false} ParsedConcat(k: Sketch, a: seq<Action>, b: seq<Action>, fixed: string -> bool)
    requires Complete(k, a, fixed)
    ensures Parsed(k, a + b, fixed) == Parsed(Parsed(k, a, fixed), b, fixed)
    ensures Complete(k, a + b, fixed) <==> Complete(Parsed(k, a, fixed), b, fixed)
    decreases |a|
  {
    if a == [] {
      assert a + b == b;
    } else {
      assert (a + b)[0] == a[0] && (a + b)[1..] == a[1..] + b;
      ParsedConcat(After(k, a[0], fixed), a[1..], b, fixed);
    }
  }

  /** One more action of a list that has fitted so far. */
  lemma ParsedNext(k: Sketch, actions: seq<Action>, i: nat, fixed: string -> bool)
    requires i < |actions| && Complete(k, actions[..i], fixed)
    ensures var m := Parsed(k, actions[..i], fixed);
            if Accepts(m, actions[i]) then
              Complete(k, actions[..i + 1], fixed) && Parsed(k, actions[..i + 1], fixed) == After(m, actions[i], fixed)
            else Parsed(k, actions, fixed) == m
  {
    var m := Parsed(k, actions[..i], fixed);
    ParsedConcat(k, actions[..i], [actions[i]], fixed);
    ParsedConcat(k, actions[..i], actions[i..], fixed);
    assert actions[..i] + [actions[i]] == actions[..i + 1];
    assert actions[..i] + actions[i..] == actions;
    if Accepts(m, actions[i]) {
      var one := [actions[i]];
      assert one[1..] == [];
      assert Parsed(After(m, one[0], fixed), [], fixed) == After(m, actions[i], fixed);
    }
  }

  // ---------------------------------------------------------------- the actions for an expression

  /** The tokens and reductions by which the parser reads e. */
  function Actions(e: Term): seq<Action> {
    match e
    case Column(n) => [ShiftName(n), ReduceField]
    case Qualified(t, n) => [ShiftName(t), ShiftName(n), ReduceQualified, ReduceField]
    case Number(v) => [ShiftNumber(v), ReduceNumber]
    case Text(t) => [ShiftText(t), ReduceText]
    case NoArgCall(f) => [ShiftName(f), ReduceNoArgCall]
    case Call(f, a) => [ShiftName(f)] + (Actions(a) + [ReduceCall])
    case Comma(l, r) => Actions(l) + (Actions(r) + [ReduceMerge])
    case Binary(_, l, r) => Actions(l) + (Actions(r) + [ReduceMerge])
    case Unary(_, a) => Actions(a)
    case Paren(a) => Actions(a)
  }

  /** With the items `more` on top. */
  function With(k: Sketch, more: seq<Item>): Sketch {
    k.(items := k.items + more)
  }

  lemma One(k: Sketch, a: Action, fixed: string -> bool)
    requires Accepts(k, a)
    ensures Complete(k, [a], fixed) && Parsed(k, [a], fixed) == After(k, a, fixed)
  {
    assert [a][1..] == [];
    assert Parsed(After(k, a, fixed), [], fixed) == After(k, a, fixed);
  }

  /** A token and its reduction. */
  lemma Two(k: Sketch, a: Action, b: Action, fixed: string -> bool)
    requires Accepts(k, a) && Accepts(After(k, a, fixed), b)
    ensures Complete(k, [a, b], fixed) && Parsed(k, [a, b], fixed) == After(After(k, a, fixed), b, fixed)
  {
    One(k, a, fixed);
    One(After(k, a, fixed), b, fixed);
    ParsedConcat(k, [a], [b], fixed);
    assert [a] + [b] == [a, b];
  }

  lemma LeafMeaning(e: Term, fixed: string -> bool)
    ensures match e
            case Column(n) => Meaning(e, fixed) == FieldSummary(n, fixed)
            case Qualified(_, n) => Meaning(e, fixed) == FieldSummary(n, fixed)
            case Number(_) => Meaning(e, fixed) == Summary({}, true, Integer, 0)
            case Text(t) => Meaning(e, fixed) == Summary({}, true, String, |t|)
            case NoArgCall(_) => Meaning(e, fixed) == Summary({}, true, String, 4)
            case _ => true
  {
    match e {
      case Column(n) => ColumnIn(e, fixed, n);
      case Qualified(_, n) => ColumnIn(e, fixed, n);
      case _ =>
    }
  }

  lemma ReadsLeaf(k: Sketch, e: Term, fixed: string -> bool)
    requires e.Column? || e.Number? || e.Text? || e.NoArgCall?
    ensures Complete(k, Actions(e), fixed) && Parsed(k, Actions(e), fixed) == With(k, [Sum(Meaning(e, fixed))])
  {
    LeafMeaning(e, fixed);
    hide Meaning, Parsed, Complete;
    Two(k, Actions(e)[0], Actions(e)[1], fixed);
    assert Actions(e) == [Actions(e)[0], Actions(e)[1]];
    var item := if e.Number? then Figure(e.value) else if e.Text? then Name(e.text) else if e.Column? then Name(e.name)
                else Name(e.fn);
    assert (k.items + [item])[..|k.items|] == k.items;
  }

  lemma ReadsQualified(k: Sketch, t: string, n: string, fixed: string -> bool)
    ensures Complete(k, Actions(Qualified(t, n)), fixed)
    ensures Parsed(k, Actions(Qualified(t, n)), fixed) == With(k, [Sum(Meaning(Qualified(t, n), fixed))])
  {
    LeafMeaning(Qualified(t, n), fixed);
    hide Meaning, Parsed, Complete;
    var m := With(k, [Name(t), Name(n)]);
    assert (k.items + [Name(t)]) + [Name(n)] == m.items;
    Two(k, ShiftName(t), ShiftName(n), fixed);
    assert Below(m, 2) == k.items;
    var q := With(k, [Name(n)]);
    assert Below(q, 1) == k.items;
    Two(m, ReduceQualified, ReduceField, fixed);
    ParsedConcat(k, [ShiftName(t), ShiftName(n)], [ReduceQualified, ReduceField], fixed);
    assert Actions(Qualified(t, n)) == [ShiftName(t), ShiftName(n)] + [ReduceQualified, ReduceField];
  }

  /** One more action after those for e. */
  lemma ReadsThen(k: Sketch, e: Term, a: Action, fixed: string -> bool)
    requires Complete(k, Actions(e), fixed) && Parsed(k, Actions(e), fixed) == With(k, [Sum(Meaning(e, fixed))])
    requires Accepts(With(k, [Sum(Meaning(e, fixed))]), a)
    ensures Complete(k, Actions(e) + [a], fixed)
    ensures Parsed(k, Actions(e) + [a], fixed) == After(With(k, [Sum(Meaning(e, fixed))]), a, fixed)
  {
    hide Meaning, Parsed, Complete, After;
    ParsedConcat(k, Actions(e), [a], fixed);
    One(With(k, [Sum(Meaning(e, fixed))]), a, fixed);
  }

  /** Two expressions, and an action on them. */
  lemma ReadsPair(k: Sketch, l: Term, r: Term, a: Action, fixed: string -> bool)
    requires Complete(k, Actions(l), fixed) && Parsed(k, Actions(l), fixed) == With(k, [Sum(Meaning(l, fixed))])
    requires var m := With(k, [Sum(Meaning(l, fixed))]);
             Complete(m, Actions(r), fixed) && Parsed(m, Actions(r), fixed) == With(m, [Sum(Meaning(r, fixed))])
    requires a == ReduceMerge || a == ReduceCompare || a == CompareAt(1, 0)
    ensures var list := Actions(l) + (Actions(r) + [a]);
            var both := With(k, [Sum(Meaning(l, fixed)), Sum(Meaning(r, fixed))]);
            && Accepts(both, a) && Below(both, 2) == k.items
            && Complete(k, list, fixed) && Parsed(k, list, fixed) == After(both, a, fixed)
  {
    hide Meaning, Parsed, Complete, After;
    var m := With(k, [Sum(Meaning(l, fixed))]);
    var both := With(k, [Sum(Meaning(l, fixed)), Sum(Meaning(r, fixed))]);
    assert With(m, [Sum(Meaning(r, fixed))]) == both;
    ReadsThen(m, r, a, fixed);
    ParsedConcat(k, Actions(l), Actions(r) + [a], fixed);
  }

  lemma ReadsCall(k: Sketch, f: string, a: Term, fixed: string -> bool)
    requires var m := With(k, [Name(f)]);
             Complete(m, Actions(a), fixed) && Parsed(m, Actions(a), fixed) == With(m, [Sum(Meaning(a, fixed))])
    ensures Complete(k, Actions(Call(f, a)), fixed)
    ensures Parsed(k, Actions(Call(f, a)), fixed) == With(k, [Sum(Meaning(Call(f, a), fixed))])
  {
    hide Meaning, Parsed, Complete;
    var m := With(k, [Name(f)]);
    One(k, ShiftName(f), fixed);
    ReadsThen(m, a, ReduceCall, fixed);
    ParsedConcat(k, [ShiftName(f)], Actions(a) + [ReduceCall], fixed);
    MeaningOfWrapped(a, f, fixed);
    assert Below(With(m, [Sum(Meaning(a, fixed))]), 2) == k.items;
  }

  lemma ReadsJoin(k: Sketch, op: string, l: Term, r: Term, fixed: string -> bool)
    requires Complete(k, Actions(l), fixed) && Parsed(k, Actions(l), fixed) == With(k, [Sum(Meaning(l, fixed))])
    requires var m := With(k, [Sum(Meaning(l, fixed))]);
             Complete(m, Actions(r), fixed) && Parsed(m, Actions(r), fixed) == With(m, [Sum(Meaning(r, fixed))])
    ensures var list := Actions(l) + (Actions(r) + [ReduceMerge]);
            && Complete(k, list, fixed)
            && Parsed(k, list, fixed) == With(k, [Sum(Meaning(Comma(l, r), fixed))])
            && Parsed(k, list, fixed) == With(k, [Sum(Meaning(Binary(op, l, r), fixed))])
  {
    hide Meaning, Parsed, Complete, Join;
    ReadsPair(k, l, r, ReduceMerge, fixed);
    MeaningOfJoin(l, r, op, fixed);
  }

  /** The actions for e leave exactly one more item, which is what e means, and no flag set. */
  lemma {:induction false} Reads(k: Sketch, e: Term, fixed: string -> bool)
    ensures Complete(k, Actions(e), fixed) && Parsed(k, Actions(e), fixed) == With(k, [Sum(Meaning(e, fixed))])
    decreases e
  {
    hide Meaning, Parsed, Complete, After, Accepts;
    match e {
      case Qualified(t, n) => ReadsQualified(k, t, n, fixed);
      case Call(f, a) => Reads(With(k, [Name(f)]), a, fixed); ReadsCall(k, f, a, fixed);
      case Comma(l, r) =>
        Reads(k, l, fixed);
        Reads(With(k, [Sum(Meaning(l, fixed))]), r, fixed);
        ReadsJoin(k, "", l, r, fixed);
      case Binary(op, l, r) =>
        Reads(k, l, fixed);
        Reads(With(k, [Sum(Meaning(l, fixed))]), r, fixed);
        ReadsJoin(k, op, l, r, fixed);
      case Unary(op, a) => Reads(k, a, fixed); MeaningOfWrapped(a, op, fixed);
      case Paren(a) => Reads(k, a, fixed); MeaningOfWrapped(a, "", fixed);
      case _ => ReadsLeaf(k, e, fixed);
    }
  }

  // ---------------------------------------------------------------- what a condition is flagged for

  function Comparison(l: Term, r: Term): seq<Action> {
    Actions(l) + (Actions(r) + [ReduceCompare])
  }

  /** A comparison leaves the stack as it was, and sets the flag for a tautology exactly when its sides have
      the same columns and, unless there are none, constants both or neither; otherwise that for an empty
      password exactly when it compares one. */
  lemma ComparisonParsed(k: Sketch, l: Term, r: Term, fixed: string -> bool)
    ensures var a, b := Meaning(l, fixed), Meaning(r, fixed);
            && Complete(k, Comparison(l, r), fixed)
            && Parsed(k, Comparison(l, r), fixed)
               == Sketch(k.items, k.tautology || Similar(a, b),
                         k.emptyPwd || (!Similar(a, b) && ComparesEmptyPassword(a, b)))
  {
    hide Meaning, Parsed, Complete, Similar, ComparesEmptyPassword;
    Reads(k, l, fixed);
    Reads(With(k, [Sum(Meaning(l, fixed))]), r, fixed);
    ReadsPair(k, l, r, ReduceCompare, fixed);
  }

  /** So does one whose sides stay on the stack, as in CASE. */
  lemma ComparisonKept(k: Sketch, l: Term, r: Term, fixed: string -> bool)
    ensures var a, b := Meaning(l, fixed), Meaning(r, fixed);
            var list := Actions(l) + (Actions(r) + [CompareAt(1, 0)]);
            && Complete(k, list, fixed)
            && Parsed(k, list, fixed)
               == Sketch(k.items + [Sum(a), Sum(b)], k.tautology || Similar(a, b),
                         k.emptyPwd || (!Similar(a, b) && ComparesEmptyPassword(a, b)))
  {
    hide Meaning, Parsed, Complete, Similar, ComparesEmptyPassword;
    Reads(k, l, fixed);
    Reads(With(k, [Sum(Meaning(l, fixed))]), r, fixed);
    ReadsPair(k, l, r, CompareAt(1, 0), fixed);
  }

  /** BETWEEN compares its first expression with both others, and all three go. */
  lemma BetweenParsed(k: Sketch, x: Term, l: Term, r: Term, fixed: string -> bool)
    ensures var e, a, b := Meaning(x, fixed), Meaning(l, fixed), Meaning(r, fixed);
            var list := Actions(x) + (Actions(l) + (Actions(r) + BETWEEN));
            && Complete(k, list, fixed)
            && Parsed(k, list, fixed)
               == Sketch(k.items, k.tautology || Similar(e, a) || Similar(e, b),
                         k.emptyPwd || (!Similar(e, a) && ComparesEmptyPassword(e, a))
                                    || (!Similar(e, b) && ComparesEmptyPassword(e, b)))
  {
    hide Meaning, Actions, Parsed, Complete, Similar, ComparesEmptyPassword, With;
    ComparedTwice(k, Meaning(x, fixed), Meaning(l, fixed), Meaning(r, fixed), fixed);
    ReadsThree(k, x, l, r, BETWEEN, fixed);
  }

  /** The actions for three expressions in front of others. */
  lemma ReadsThree(k: Sketch, x: Term, l: Term, r: Term, more: seq<Action>, fixed: string -> bool)
    requires Complete(With(k, [Sum(Meaning(x, fixed)), Sum(Meaning(l, fixed)), Sum(Meaning(r, fixed))]), more, fixed)
    ensures var m := With(k, [Sum(Meaning(x, fixed)), Sum(Meaning(l, fixed)), Sum(Meaning(r, fixed))]);
            var list := Actions(x) + (Actions(l) + (Actions(r) + more));
            Complete(k, list, fixed) && Parsed(k, list, fixed) == Parsed(m, more, fixed)
  {
    hide Meaning, Actions, Parsed, Complete, With;
    var e, a, b := Sum(Meaning(x, fixed)), Sum(Meaning(l, fixed)), Sum(Meaning(r, fixed));
    var k1 := With(k, [e]);
    WithTwo(k, [e], [a, b]);
    WithTwo(k1, [a], [b]);
    assert [e] + [a, b] == [e, a, b] && [a] + [b] == [a, b];
    ReadsBefore(With(k1, [a]), r, more, fixed);
    ReadsBefore(k1, l, Actions(r) + more, fixed);
    ReadsBefore(k, x, Actions(l) + (Actions(r) + more), fixed);
  }

  lemma WithTwo(k: Sketch, a: seq<Item>, b: seq<Item>)
    ensures With(With(k, a), b) == With(k, a + b)
  {
    assert k.items + (a + b) == (k.items + a) + b;
  }

  /** The actions for e in front of others. */
  lemma ReadsBefore(k: Sketch, e: Term, more: seq<Action>, fixed: string -> bool)
    requires Complete(With(k, [Sum(Meaning(e, fixed))]), more, fixed)
    ensures Complete(k, Actions(e) + more, fixed)
    ensures Parsed(k, Actions(e) + more, fixed) == Parsed(With(k, [Sum(Meaning(e, fixed))]), more, fixed)
  {
    hide Meaning, Parsed, Complete;
    Reads(k, e, fixed);
    ParsedConcat(k, Actions(e), more, fixed);
  }

  const BETWEEN := [CompareAt(2, 1), CompareAt(2, 0), Discard, Discard, Discard]

  lemma ComparedTwice(k: Sketch, e: Summary, a: Summary, b: Summary, fixed: string -> bool)
    ensures var m := With(k, [Sum(e), Sum(a), Sum(b)]);
            && Complete(m, BETWEEN, fixed)
            && Parsed(m, BETWEEN, fixed)
               == Sketch(k.items, k.tautology || Similar(e, a) || Similar(e, b),
                         k.emptyPwd || (!Similar(e, a) && ComparesEmptyPassword(e, a))
                                    || (!Similar(e, b) && ComparesEmptyPassword(e, b)))
  {
    hide Similar, ComparesEmptyPassword, Parsed, Complete;
    var m := With(k, [Sum(e), Sum(a), Sum(b)]);
    Two(m, CompareAt(2, 1), CompareAt(2, 0), fixed);
    var c := After(After(m, CompareAt(2, 1), fixed), CompareAt(2, 0), fixed);
    ThreeDiscarded(c, k.items, Sum(e), Sum(a), Sum(b), fixed);
    ParsedConcat(m, [CompareAt(2, 1), CompareAt(2, 0)], [Discard, Discard, Discard], fixed);
    assert BETWEEN == [CompareAt(2, 1), CompareAt(2, 0)] + [Discard, Discard, Discard];
  }

  lemma ThreeDiscarded(c: Sketch, items: seq<Item>, x: Item, y: Item, z: Item, fixed: string -> bool)
    requires c.items == items + [x, y, z]
    ensures Complete(c, [Discard, Discard, Discard], fixed)
    ensures Parsed(c, [Discard, Discard, Discard], fixed) == c.(items := items)
  {
    hide Parsed, Complete;
    Two(c, Discard, Discard, fixed);
    assert Below(c, 1) == items + [x, y];
    assert (items + [x, y])[..|items| + 1] == items + [x];
    var d := c.(items := items + [x]);
    One(d, Discard, fixed);
    assert Below(d, 1) == items;
    ParsedConcat(c, [Discard, Discard], [Discard], fixed);
    assert [Discard, Discard] + [Discard] == [Discard, Discard, Discard];
  }

  /** A condition that is no comparison sets the flag for a tautology exactly when it has no columns. */
  lemma TruthParsed(k: Sketch, e: Term, fixed: string -> bool)
    ensures Complete(k, Actions(e) + [ReduceTruth], fixed)
    ensures Parsed(k, Actions(e) + [ReduceTruth], fixed)
            == k.(tautology := k.tautology || Meaning(e, fixed).fields == {})
  {
    hide Meaning, Parsed, Complete;
    Reads(k, e, fixed);
    ReadsThen(k, e, ReduceTruth, fixed);
    ColumnOrConst(e, fixed);
    assert Below(With(k, [Sum(Meaning(e, fixed))]), 1) == k.items;
  }

  lemma ChainParsed(k: Sketch, fixed: string -> bool)
    ensures Parsed(k, [FlagTautology], fixed) == k.(tautology := true)
  {
    One(k, FlagTautology, fixed);
  }

  /** A flag once set stays set. */
  lemma {:induction false} FlagsStay(k: Sketch, actions: seq<Action>, fixed: string -> bool)
    ensures k.tautology ==> Parsed(k, actions, fixed).tautology
    ensures k.emptyPwd ==> Parsed(k, actions, fixed).emptyPwd
    decreases |actions|
  {
    if actions != [] && Accepts(k, actions[0]) {
      FlagsStay(After(k, actions[0], fixed), actions[1..], fixed);
    }
  }

  /** The actions that may set one. */
  predicate Flags(a: Action) {
    a == ReduceTruth || a == ReduceCompare || a.CompareAt? || a == FlagTautology
  }

  /** Without them no flag is set. */
  lemma {:induction false} NoFlags(k: Sketch, actions: seq<Action>, fixed: string -> bool)
    requires forall a :: a in actions ==> !Flags(a)
    ensures Parsed(k, actions, fixed).tautology == k.tautology && Parsed(k, actions, fixed).emptyPwd == k.emptyPwd
    decreases |actions|
  {
    if actions != [] && Accepts(k, actions[0]) {
      assert actions[0] in actions;
      NoFlags(After(k, actions[0], fixed), actions[1..], fixed);
    }
  }

  /** Wherever a comparison stands in a parse that got to it, what it is flagged for shows in the end. */
  lemma ComparisonFlagged(before: seq<Action>, l: Term, r: Term, after: seq<Action>, fixed: string -> bool)
    requires Complete(START, before, fixed)
    ensures var a, b := Meaning(l, fixed), Meaning(r, fixed);
            var end := Parsed(START, before + (Comparison(l, r) + after), fixed);
            && (Similar(a, b) ==> end.tautology)
            && (!Similar(a, b) && ComparesEmptyPassword(a, b) ==> end.emptyPwd)
  {
    hide Meaning, Parsed, Complete, Similar, ComparesEmptyPassword, Comparison;
    var k := Parsed(START, before, fixed);
    ParsedConcat(START, before, Comparison(l, r) + after, fixed);
    ComparisonParsed(k, l, r, fixed);
    ParsedConcat(k, Comparison(l, r), after, fixed);
    FlagsStay(Parsed(k, Comparison(l, r), fixed), after, fixed);
  }

  // ---------------------------------------------------------------- any number of conditions

  datatype Condition = Compare(left: Term, right: Term) | Truth(exp: Term)

  function ActionsOf(c: Condition): seq<Action> {
    match c
    case Compare(l, r) => Comparison(l, r)
    case Truth(e) => Actions(e) + [ReduceTruth]
  }

  function AllActions(cs: seq<Condition>): seq<Action> {
    if cs == [] then [] else ActionsOf(cs[0]) + AllActions(cs[1..])
  }

  ghost predicate IsTautology(c: Condition, fixed: string -> bool) {
    match c
    case Compare(l, r) => Similar(Meaning(l, fixed), Meaning(r, fixed))
    case Truth(e) => Meaning(e, fixed).fields == {}
  }

  ghost predicate TestsEmptyPassword(c: Condition, fixed: string -> bool) {
    match c
    case Compare(l, r) => !IsTautology(c, fixed) && ComparesEmptyPassword(Meaning(l, fixed), Meaning(r, fixed))
    case Truth(_) => false
  }

  lemma ConditionParsed(k: Sketch, c: Condition, fixed: string -> bool)
    ensures Complete(k, ActionsOf(c), fixed)
    ensures Parsed(k, ActionsOf(c), fixed)
            == Sketch(k.items, k.tautology || IsTautology(c, fixed), k.emptyPwd || TestsEmptyPassword(c, fixed))
  {
    hide Meaning, Parsed, Complete, Similar, ComparesEmptyPassword, Comparison;
    match c {
      case Compare(l, r) => ComparisonParsed(k, l, r, fixed);
      case Truth(e) => TruthParsed(k, e, fixed);
    }
  }

  /** After any conditions, one after the other, a flag is set exactly when one of them set it. */
  lemma {:induction false} ConditionsParsed(k: Sketch, cs: seq<Condition>, fixed: string -> bool)
    ensures Complete(k, AllActions(cs), fixed)
    ensures var end := Parsed(k, AllActions(cs), fixed);
            && end.items == k.items
            && (end.tautology <==> k.tautology || exists c :: c in cs && IsTautology(c, fixed))
            && (end.emptyPwd <==> k.emptyPwd || exists c :: c in cs && TestsEmptyPassword(c, fixed))
    decreases |cs|
  {
    if cs != [] {
      hide Parsed, Complete, IsTautology, TestsEmptyPassword, ActionsOf;
      var c := cs[0];
      var m := Parsed(k, ActionsOf(c), fixed);
      ConditionParsed(k, c, fixed);
      ConditionsParsed(m, cs[1..], fixed);
      ParsedConcat(k, ActionsOf(c), AllActions(cs[1..]), fixed);
      assert forall d :: d in cs <==> d == c || d in cs[1..];
    }
  }

  /** The classic: 1=1 in a query sets the flag for a tautology and leaves the other alone. */
  lemma OneEqualsOne(k: Sketch, fixed: string -> bool)
    ensures var one := [ShiftNumber(1), ReduceNumber];
            Parsed(k, one + (one + [ReduceCompare]), fixed) == k.(tautology := true)
  {
    ComparisonParsed(k, Number(1), Number(1), fixed);
    assert Actions(Number(1)) == [ShiftNumber(1), ReduceNumber];
  }

  /** A column compared with a text: no tautology, and an empty password exactly for an empty text and one
      of three names, in capitals or not. */
  lemma ColumnWithText(k: Sketch, name: string, text: string, fixed: string -> bool)
    requires !fixed(name)
    ensures Parsed(k, [ShiftName(name), ReduceField, ShiftText(text), ReduceText, ReduceCompare], fixed)
            == k.(emptyPwd := k.emptyPwd || (text == "" && IsPasswordName(name)))
    ensures Parsed(k, [ShiftText(text), ReduceText, ShiftName(name), ReduceField, ReduceCompare], fixed) == k
  {
    var l, r := Column(name), Text(text);
    LeafMeaning(l, fixed);
    LeafMeaning(r, fixed);
    var a, b := Meaning(l, fixed), Meaning(r, fixed);
    hide Meaning, Parsed, Complete;
    assert a.fields == {name} && name in a.fields && b.fields == {};
    assert ComparesEmptyPassword(a, b) <==> text == "" && IsPasswordName(name) by {
      assert forall n: string :: a.fields == {n} ==> n in {name};
    }
    ComparisonParsed(k, l, r, fixed);
    ComparisonParsed(k, r, l, fixed);
    assert Comparison(l, r) == [ShiftName(name), ReduceField, ShiftText(text), ReduceText, ReduceCompare];
    assert Comparison(r, l) == [ShiftText(text), ReduceText, ShiftName(name), ReduceField, ReduceCompare];
  }

  /** A column compared with a function without arguments, or with a name that stands for a constant of the
      session: nothing is flagged, since both count as texts that are not empty. */
  lemma ColumnWithConstant(k: Sketch, name: string, other: string, fixed: string -> bool)
    requires !fixed(name)
    ensures Parsed(k, [ShiftName(name), ReduceField, ShiftName(other), ReduceNoArgCall, ReduceCompare], fixed) == k
    ensures fixed(other) ==>
              Parsed(k, [ShiftName(name), ReduceField, ShiftName(other), ReduceField, ReduceCompare], fixed) == k
  {
    var l, r, c := Column(name), NoArgCall(other), Column(other);
    LeafMeaning(l, fixed);
    LeafMeaning(r, fixed);
    LeafMeaning(c, fixed);
    hide Meaning, Parsed, Complete;
    assert name in Meaning(l, fixed).fields;
    ComparisonParsed(k, l, r, fixed);
    ComparisonParsed(k, l, c, fixed);
    assert Comparison(l, r) == [ShiftName(name), ReduceField, ShiftName(other), ReduceNoArgCall, ReduceCompare];
    assert Comparison(l, c) == [ShiftName(name), ReduceField, ShiftName(other), ReduceField, ReduceCompare];
  }

  /** A table's name counts as a column, also when it is one of the fixed names. */
  lemma TableParsed(k: Sketch, name: string, fixed: string -> bool)
    ensures Complete(k, [ShiftName(name), ReduceTable], fixed)
    ensures Parsed(k, [ShiftName(name), ReduceTable], fixed) == With(k, [Sum(Meaning(Column(name), n => false))])
  {
    LeafMeaning(Column(name), n => false);
    Two(k, ShiftName(name), ReduceTable, fixed);
    assert (k.items + [Name(name)])[..|k.items|] == k.items;
  }

  /** A star has neither a column nor a constant: alone it is no tautology, compared with a constant it is. */
  lemma StarParsed(k: Sketch, fixed: string -> bool)
    ensures Parsed(k, [ReduceStar, ReduceTruth], fixed) == k
  {
    Two(k, ReduceStar, ReduceTruth, fixed);
    assert (k.items + [Sum(Summary({}, false, Undef, 0))])[..|k.items|] == k.items;
  }

  lemma StarCompared(k: Sketch, value: int, fixed: string -> bool)
    ensures Parsed(k, [ReduceStar, ShiftNumber(value), ReduceNumber, ReduceCompare], fixed) == k.(tautology := true)
  {
    hide Parsed, Complete, Meaning, Actions;
    var m := After(k, ReduceStar, fixed);
    var e := Number(value);
    One(k, ReduceStar, fixed);
    Reads(m, e, fixed);
    LeafMeaning(e, fixed);
    ReadsThen(m, e, ReduceCompare, fixed);
    ParsedConcat(k, [ReduceStar], Actions(e) + [ReduceCompare], fixed);
    assert [ReduceStar] + (Actions(e) + [ReduceCompare]) == [ReduceStar, ShiftNumber(value), ReduceNumber, ReduceCompare] by {
      NumberActions(value);
    }
    assert Below(With(m, [Sum(Meaning(e, fixed))]), 2) == k.items;
  }

  lemma NumberActions(value: int)
    ensures Actions(Number(value)) == [ShiftNumber(value), ReduceNumber]
  {
  }
}
