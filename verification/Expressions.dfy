/** What the SQL parser keeps of an expression: the columns and whether a constant occurs.
    Models src/parser/expression.hpp and the semantic actions of src/parser/sql.ypp. */
module Expressions {
  import opened Text

  datatype ConstType = Undef | Integer | String

  /** The fields of an Expression object, as one value. */
  datatype Summary = Summary(fields: set<string>, hasConst: bool, constType: ConstType, strLength: nat)

  function Max(a: nat, b: nat): nat {
    if a > b then a else b
  }

  /** What Add makes of the two. */
  function Join(a: Summary, b: Summary): Summary {
    Summary(a.fields + b.fields, a.hasConst || b.hasConst, a.constType,
            if b.hasConst && b.constType == String then Max(a.strLength, b.strLength) else a.strLength)
  }

  function WithText(a: Summary, length: nat): Summary {
    match a.constType
    case Undef => a.(hasConst := true, constType := String, strLength := length)
    case String => a.(hasConst := true, strLength := a.strLength + length)
    case Integer => a.(hasConst := true)
  }

  class SQLString {
    const strValue: string

    constructor (text: string)
      ensures strValue == text
    {
      strValue := text;
    }
  }

  class Expression {
    var fields: set<string>
    var hasConst: bool
    var strLength: nat
    var constType: ConstType

    constructor ()
      ensures Value() == Summary({}, false, Undef, 0)
    {
      fields, hasConst, strLength, constType := {}, false, 0, Undef;
    }

    function Value(): Summary
      reads this
    {
      Summary(fields, hasConst, constType, strLength)
    }

    /** The caller deletes the string. */
    method AddField(str: SQLString)
      modifies this
      ensures Value() == old(Value()).(fields := old(fields) + {str.strValue})
    {
      fields := fields + {str.strValue};
    }

    method AddConstString(str: SQLString)
      modifies this
      ensures Value() == WithText(old(Value()), |str.strValue|)
    {
      hasConst := true;
      if constType == Undef {
        constType := String;
        strLength := |str.strValue|;
      } else if constType == String {
        strLength := strLength + |str.strValue|;
      }
    }

    method AddConstInt(value: int)
      modifies this
      ensures Value() == old(Value()).(hasConst := true, constType := Integer)
    {
      hasConst := true;
      constType := Integer;
    }

    /** The caller deletes xp2. */
    method Add(xp2: Expression)
      requires xp2 != this
      modifies this
      ensures Value() == Join(old(Value()), xp2.Value())
    {
      AddFields(xp2);
      if xp2.hasConst {
        hasConst := true;
        if xp2.constType == String {
          strLength := if strLength > xp2.strLength then strLength else xp2.strLength;
        }
      }
    }

    /** The loop over the other one's fields. */
    method AddFields(xp2: Expression)
      requires xp2 != this
      modifies this`fields
      ensures fields == old(fields) + xp2.fields
    {
      var rest := xp2.fields;
      ghost var before := fields;
      while rest != {}
        invariant rest <= xp2.fields && fields == before + (xp2.fields - rest)
        invariant unchanged(xp2)
        decreases |rest|
      {
        var f :| f in rest;
        OneMoved(before, xp2.fields, rest, f);
        fields := fields + {f};
        rest := rest - {f};
      }
    }

    /** A size test and a one-sided set difference. */
    method Comp(xp2: Expression) returns (same: bool)
      ensures same <==> Similar(Value(), xp2.Value())
    {
      if |fields| != |xp2.fields| {
        return false;
      }
      if |fields| == 0 {
        // two constants are never told apart
        return true;
      }
      var difference := fields - xp2.fields;
      SameSize(fields, xp2.fields);
      if |difference| == 0 {
        if hasConst == xp2.hasConst {
          return true;
        }
      }
      return false;
    }

    method IsTrue() returns (r: bool)
      ensures r <==> fields == {} && hasConst
    {
      r := |fields| == 0 && hasConst;
    }

    method IsEmptyPwd(xp2: Expression) returns (r: bool)
      ensures r <==> ComparesEmptyPassword(Value(), xp2.Value())
    {
      if xp2.constType == String && xp2.strLength == 0 && |xp2.fields| == 0 && constType == Undef && |fields| == 1 {
        var str :| str in fields;
        OnlyMember(fields, str);
        if IsPasswordName(str) {
          return true;
        }
      }
      return false;
    }
  }

  lemma OneMoved(before: set<string>, all: set<string>, rest: set<string>, f: string)
    requires rest <= all && f in rest
    ensures before + (all - rest) + {f} == before + (all - (rest - {f}))
  {
  }

  lemma SameSize(a: set<string>, b: set<string>)
    requires |a| == |b|
    ensures a - b == {} <==> a == b
  {
    if a - b == {} {
      assert forall x :: x in a ==> x in b || x in a - b;
      assert |b - a| == |b| - |a|;
    }
  }

  lemma OnlyMember(s: set<string>, x: string)
    requires x in s && |s| == 1
    ensures s == {x}
  {
    assert |s - {x}| == 0;
  }

  /** Two sides of a comparison that are flagged: the same columns, and constants on both sides or on
      neither; or no columns at all. */
  predicate Similar(a: Summary, b: Summary) {
    a.fields == b.fields && (a.fields == {} || a.hasConst == b.hasConst)
  }

  predicate EqualIgnoringCase(a: string, b: string) {
    |a| == |b| && forall i :: 0 <= i < |a| ==> Lower(a[i]) == Lower(b[i])
  }

  predicate IsPasswordName(s: string) {
    EqualIgnoringCase(s, "pwd") || EqualIgnoringCase(s, "pass") || EqualIgnoringCase(s, "password")
  }

  ghost predicate ComparesEmptyPassword(a: Summary, b: Summary) {
    b.constType == String && b.strLength == 0 && b.fields == {} && a.constType == Undef
    && exists name :: a.fields == {name} && IsPasswordName(name)
  }

  // ---------------------------------------------------------------- what an expression means

  /** Arithmetic and function expressions as the grammar builds them. */
  datatype Term =
    | Column(name: string)
    | Qualified(table: string, name: string)
    | Number(value: int)
    | Text(text: string)
    | NoArgCall(fn: string)
    | Call(fn: string, args: Term)
    | Comma(left: Term, right: Term)
    | Binary(op: string, left: Term, right: Term)
    | Unary(op: string, arg: Term)
    | Paren(arg: Term)

  /** Values, and what constants, operators and functions make of them. */
  datatype Semantics<!V> = Semantics(
    constant: string -> V,
    number: int -> V,
    text: string -> V,
    call0: string -> V,
    call: (string, V) -> V,
    comma: (V, V) -> V,
    binary: (string, V, V) -> V,
    unary: (string, V) -> V)

  /** clb_check_true_constant: an empty name is none. */
  function TrueConstant(matches: string -> bool): string -> bool {
    (name: string) => |name| > 0 && matches(name)
  }

  lemma TrueConstantIs(matches: string -> bool, name: string)
    ensures !TrueConstant(matches)("") && (name != "" ==> TrueConstant(matches)(name) == matches(name))
  {
  }

  /** The value of e on a row; `fixed` are the names that stand for a constant of the session. */
  function Eval<V>(e: Term, sem: Semantics<V>, fixed: string -> bool, row: string -> V): V {
    match e
    case Column(n) => if fixed(n) then sem.constant(n) else row(n)
    case Qualified(_, n) => if fixed(n) then sem.constant(n) else row(n)
    case Number(i) => sem.number(i)
    case Text(t) => sem.text(t)
    case NoArgCall(f) => sem.call0(f)
    case Call(f, a) => sem.call(f, Eval(a, sem, fixed, row))
    case Comma(l, r) => sem.comma(Eval(l, sem, fixed, row), Eval(r, sem, fixed, row))
    case Binary(op, l, r) => sem.binary(op, Eval(l, sem, fixed, row), Eval(r, sem, fixed, row))
    case Unary(op, a) => sem.unary(op, Eval(a, sem, fixed, row))
    case Paren(a) => Eval(a, sem, fixed, row)
  }

  /** What stands at the leaves: columns, and constants of any kind. */
  datatype Leaf = Col(name: string) | Const

  function Leaves(e: Term, fixed: string -> bool): multiset<Leaf> {
    match e
    case Column(n) => multiset{if fixed(n) then Const else Col(n)}
    case Qualified(_, n) => multiset{if fixed(n) then Const else Col(n)}
    case Number(_) => multiset{Const}
    case Text(_) => multiset{Const}
    case NoArgCall(_) => multiset{Const}
    case Call(_, a) => Leaves(a, fixed)
    case Comma(l, r) => Leaves(l, fixed) + Leaves(r, fixed)
    case Binary(_, l, r) => Leaves(l, fixed) + Leaves(r, fixed)
    case Unary(_, a) => Leaves(a, fixed)
    case Paren(a) => Leaves(a, fixed)
  }

  /** The leaf the expression starts with, as far as AddConst records it. */
  function LeadKind(e: Term, fixed: string -> bool): ConstType {
    match e
    case Column(n) => if fixed(n) then String else Undef
    case Qualified(_, n) => if fixed(n) then String else Undef
    case Number(_) => Integer
    case Text(_) => String
    case NoArgCall(_) => String
    case Call(_, a) => LeadKind(a, fixed)
    case Comma(l, _) => LeadKind(l, fixed)
    case Binary(_, l, _) => LeadKind(l, fixed)
    case Unary(_, a) => LeadKind(a, fixed)
    case Paren(a) => LeadKind(a, fixed)
  }

  /** The length that is kept: the longest among the parts that start with a text. */
  function TextLength(e: Term, fixed: string -> bool): nat {
    match e
    case Column(n) => if fixed(n) then 4 else 0
    case Qualified(_, n) => if fixed(n) then 4 else 0
    case Number(_) => 0
    case Text(t) => |t|
    case NoArgCall(_) => 4
    case Call(_, a) => TextLength(a, fixed)
    case Comma(l, r) =>
      if LeadKind(r, fixed) == String then Max(TextLength(l, fixed), TextLength(r, fixed)) else TextLength(l, fixed)
    case Binary(_, l, r) =>
      if LeadKind(r, fixed) == String then Max(TextLength(l, fixed), TextLength(r, fixed)) else TextLength(l, fixed)
    case Unary(_, a) => TextLength(a, fixed)
    case Paren(a) => TextLength(a, fixed)
  }

  ghost function ColumnsOf(leaves: multiset<Leaf>): set<string> {
    set l | l in leaves && l.Col? :: l.name
  }

  /** What the reductions should leave for e: exactly its columns, and whether a constant occurs. */
  ghost function Meaning(e: Term, fixed: string -> bool): Summary {
    Summary(ColumnsOf(Leaves(e, fixed)), Const in Leaves(e, fixed), LeadKind(e, fixed), TextLength(e, fixed))
  }

  // ---------------------------------------------------------------- what follows from it

  lemma ColumnsOfMember(leaves: multiset<Leaf>, x: string)
    ensures x in ColumnsOf(leaves) <==> Col(x) in leaves
  {
    if Col(x) in leaves {
      assert Col(x).name == x;
    }
  }

  lemma ColumnsOfSum(a: multiset<Leaf>, b: multiset<Leaf>)
    ensures ColumnsOf(a + b) == ColumnsOf(a) + ColumnsOf(b)
  {
    forall x ensures x in ColumnsOf(a + b) <==> x in ColumnsOf(a) + ColumnsOf(b) {
      ColumnsOfMember(a + b, x);
      ColumnsOfMember(a, x);
      ColumnsOfMember(b, x);
    }
  }

  lemma MeaningOfJoin(l: Term, r: Term, op: string, fixed: string -> bool)
    ensures Meaning(Binary(op, l, r), fixed) == Join(Meaning(l, fixed), Meaning(r, fixed))
    ensures Meaning(Comma(l, r), fixed) == Join(Meaning(l, fixed), Meaning(r, fixed))
  {
    ColumnsOfSum(Leaves(l, fixed), Leaves(r, fixed));
    LeadIsConst(r, fixed);
  }

  /** Brackets, signs, function names and table names change nothing. */
  lemma MeaningOfWrapped(a: Term, name: string, fixed: string -> bool)
    ensures Meaning(Call(name, a), fixed) == Meaning(Unary(name, a), fixed) == Meaning(Paren(a), fixed) == Meaning(a, fixed)
  {
  }

  lemma MeaningOfQualified(table: string, name: string, fixed: string -> bool)
    ensures Meaning(Qualified(table, name), fixed) == Meaning(Column(name), fixed)
  {
  }

  lemma ColumnIn(e: Term, fixed: string -> bool, x: string)
    ensures x in Meaning(e, fixed).fields <==> Col(x) in Leaves(e, fixed)
  {
    ColumnsOfMember(Leaves(e, fixed), x);
  }

  lemma {:induction false} LeadIsConst(e: Term, fixed: string -> bool)
    ensures LeadKind(e, fixed) != Undef ==> Const in Leaves(e, fixed)
  {
    match e
    case Call(_, a) => LeadIsConst(a, fixed);
    case Comma(l, _) => LeadIsConst(l, fixed);
    case Binary(_, l, _) => LeadIsConst(l, fixed);
    case Unary(_, a) => LeadIsConst(a, fixed);
    case Paren(a) => LeadIsConst(a, fixed);
    case _ =>
  }

  /** The value of an expression depends on a row only through the columns that are kept. */
  lemma {:induction false} DependsOnFields<V>(e: Term, sem: Semantics<V>, fixed: string -> bool,
                                              row1: string -> V, row2: string -> V)
    requires forall n :: n in Meaning(e, fixed).fields ==> row1(n) == row2(n)
    ensures Eval(e, sem, fixed, row1) == Eval(e, sem, fixed, row2)
  {
    match e {
      case Column(n) => ColumnIn(e, fixed, n);
      case Qualified(_, n) => ColumnIn(e, fixed, n);
      case Call(_, a) => SameFields(e, a, fixed); DependsOnFields(a, sem, fixed, row1, row2);
      case Unary(_, a) => SameFields(e, a, fixed); DependsOnFields(a, sem, fixed, row1, row2);
      case Paren(a) => SameFields(e, a, fixed); DependsOnFields(a, sem, fixed, row1, row2);
      case Comma(l, r) =>
        MeaningOfJoin(l, r, "", fixed);
        DependsOnFields(l, sem, fixed, row1, row2);
        DependsOnFields(r, sem, fixed, row1, row2);
      case Binary(op, l, r) =>
        MeaningOfJoin(l, r, op, fixed);
        DependsOnFields(l, sem, fixed, row1, row2);
        DependsOnFields(r, sem, fixed, row1, row2);
      case _ =>
    }
  }

  lemma SameFields(e: Term, a: Term, fixed: string -> bool)
    requires Leaves(e, fixed) == Leaves(a, fixed)
    ensures Meaning(e, fixed).fields == Meaning(a, fixed).fields
  {
  }

  /** Without columns it has the same value on every row: a condition that is flagged for having no
      columns on either side does not select rows. */
  lemma RowIndependent<V>(e: Term, sem: Semantics<V>, fixed: string -> bool, row1: string -> V, row2: string -> V)
    requires Meaning(e, fixed).fields == {}
    ensures Eval(e, sem, fixed, row1) == Eval(e, sem, fixed, row2)
  {
    DependsOnFields(e, sem, fixed, row1, row2);
  }

  /** Values that are true as soon as one of their parts is. */
  function AnyPart(): Semantics<bool> {
    Semantics((n: string) => false, (i: int) => false, (t: string) => false, (f: string) => false,
              (f: string, a: bool) => a, (a: bool, b: bool) => a || b,
              (op: string, a: bool, b: bool) => a || b, (op: string, a: bool) => a)
  }

  function SameEverywhere(value: bool): string -> bool {
    (name: string) => value
  }

  /** With columns it does not: there is a way to combine values that tells two rows apart. */
  lemma {:induction false} DependsOnSomeColumn(e: Term, fixed: string -> bool)
    ensures Eval(e, AnyPart(), fixed, SameEverywhere(true)) <==> Meaning(e, fixed).fields != {}
    ensures !Eval(e, AnyPart(), fixed, SameEverywhere(false))
  {
    match e {
      case Column(n) => ColumnIn(e, fixed, n);
      case Qualified(_, n) => ColumnIn(e, fixed, n);
      case Call(_, a) => SameFields(e, a, fixed); DependsOnSomeColumn(a, fixed);
      case Unary(_, a) => SameFields(e, a, fixed); DependsOnSomeColumn(a, fixed);
      case Paren(a) => SameFields(e, a, fixed); DependsOnSomeColumn(a, fixed);
      case Comma(l, r) =>
        MeaningOfJoin(l, r, "", fixed);
        DependsOnSomeColumn(l, fixed);
        DependsOnSomeColumn(r, fixed);
      case Binary(op, l, r) =>
        MeaningOfJoin(l, r, op, fixed);
        DependsOnSomeColumn(l, fixed);
        DependsOnSomeColumn(r, fixed);
      case _ =>
    }
  }

  /** Exactly the expressions without columns have the same value on every row, whatever their
      constants, operators and functions stand for. */
  lemma RowIndependentIff(e: Term, fixed: string -> bool)
    ensures Meaning(e, fixed).fields == {} <==>
            forall sem: Semantics<bool>, row1: string -> bool, row2: string -> bool ::
              Eval(e, sem, fixed, row1) == Eval(e, sem, fixed, row2)
  {
    if Meaning(e, fixed).fields == {} {
      forall sem: Semantics<bool>, row1: string -> bool, row2: string -> bool
        ensures Eval(e, sem, fixed, row1) == Eval(e, sem, fixed, row2)
      {
        RowIndependent(e, sem, fixed, row1, row2);
      }
    } else {
      DependsOnSomeColumn(e, fixed);
    }
  }

  /** Every expression has a leaf, so one without columns has a constant. */
  lemma {:induction false} ColumnOrConst(e: Term, fixed: string -> bool)
    ensures Meaning(e, fixed).fields == {} ==> Meaning(e, fixed).hasConst
  {
    match e {
      case Column(n) => ColumnIn(e, fixed, n);
      case Qualified(_, n) => ColumnIn(e, fixed, n);
      case Call(_, a) => SameFields(e, a, fixed); ColumnOrConst(a, fixed);
      case Unary(_, a) => SameFields(e, a, fixed); ColumnOrConst(a, fixed);
      case Paren(a) => SameFields(e, a, fixed); ColumnOrConst(a, fixed);
      case Comma(l, r) => MeaningOfJoin(l, r, "", fixed); ColumnOrConst(l, fixed);
      case Binary(op, l, r) => MeaningOfJoin(l, r, op, fixed); ColumnOrConst(l, fixed);
      case _ =>
    }
  }

  /** Two expressions over the same leaves are flagged when compared, however their leaves are
      ordered, grouped and combined; in particular every expression with itself. */
  lemma SameLeavesFlagged(e1: Term, e2: Term, fixed: string -> bool)
    requires Leaves(e1, fixed) == Leaves(e2, fixed)
    ensures Similar(Meaning(e1, fixed), Meaning(e2, fixed))
  {
  }

  lemma ReorderedFlagged(e1: Term, e2: Term, e3: Term, op1: string, op2: string, fixed: string -> bool)
    ensures Similar(Meaning(Binary(op1, Binary(op2, e1, e2), e3), fixed),
                    Meaning(Binary(op2, e3, Binary(op1, e2, e1)), fixed))
  {
    assert Leaves(Binary(op1, Binary(op2, e1, e2), e3), fixed) == Leaves(Binary(op2, e3, Binary(op1, e2, e1)), fixed);
  }

  /** When two expressions are flagged: the same columns, and if there are any, a constant in both or
      in neither. */
  lemma {:induction false} FlaggedIff(e1: Term, e2: Term, fixed: string -> bool)
    ensures Similar(Meaning(e1, fixed), Meaning(e2, fixed)) <==>
              && (forall n :: Col(n) in Leaves(e1, fixed) <==> Col(n) in Leaves(e2, fixed))
              && ((forall n :: Col(n) !in Leaves(e1, fixed)) || (Const in Leaves(e1, fixed) <==> Const in Leaves(e2, fixed)))
  {
    var a, b := Meaning(e1, fixed), Meaning(e2, fixed);
    forall n ensures n in a.fields <==> Col(n) in Leaves(e1, fixed) { ColumnIn(e1, fixed, n); }
    forall n ensures n in b.fields <==> Col(n) in Leaves(e2, fixed) { ColumnIn(e2, fixed, n); }
    assert a.fields == b.fields <==> forall n :: n in a.fields <==> n in b.fields;
    assert a.fields == {} <==> forall n :: n !in a.fields;
  }

  lemma SimilarIsEquivalence(a: Summary, b: Summary, c: Summary)
    ensures Similar(a, a)
    ensures Similar(a, b) ==> Similar(b, a)
    ensures Similar(a, b) && Similar(b, c) ==> Similar(a, c)
  {
  }

  // ---------------------------------------------------------------- empty passwords

  /** The three names, in capitals or not. */
  lemma PasswordNames(s: string)
    ensures IsPasswordName(s) <==>
              || (|s| == 3 && s[0] in "pP" && s[1] in "wW" && s[2] in "dD")
              || (|s| == 4 && s[0] in "pP" && s[1] in "aA" && s[2] in "sS" && s[3] in "sS")
              || (|s| == 8 && s[0] in "pP" && s[1] in "aA" && s[2] in "sS" && s[3] in "sS" && s[4] in "wW" && s[5] in "oO"
                  && s[6] in "rR" && s[7] in "dD")
  {
    assert EqualIgnoringCase(s, "pwd") <==>
      |s| == 3 && Lower(s[0]) == 'p' && Lower(s[1]) == 'w' && Lower(s[2]) == 'd';
    assert EqualIgnoringCase(s, "pass") <==>
      |s| == 4 && Lower(s[0]) == 'p' && Lower(s[1]) == 'a' && Lower(s[2]) == 's' && Lower(s[3]) == 's';
    assert EqualIgnoringCase(s, "password") <==>
      |s| == 8 && Lower(s[0]) == 'p' && Lower(s[1]) == 'a' && Lower(s[2]) == 's' && Lower(s[3]) == 's'
      && Lower(s[4]) == 'w' && Lower(s[5]) == 'o' && Lower(s[6]) == 'r' && Lower(s[7]) == 'd';
  }

  /** Expressions made of texts only, and those among them that put no character together. */
  predicate TextsOnly(e: Term) {
    match e
    case Text(_) => true
    case Call(_, a) => TextsOnly(a)
    case Comma(l, r) => TextsOnly(l) && TextsOnly(r)
    case Binary(_, l, r) => TextsOnly(l) && TextsOnly(r)
    case Unary(_, a) => TextsOnly(a)
    case Paren(a) => TextsOnly(a)
    case _ => false
  }

  predicate AllEmpty(e: Term) {
    match e
    case Text(t) => t == ""
    case Call(_, a) => AllEmpty(a)
    case Comma(l, r) => AllEmpty(l) && AllEmpty(r)
    case Binary(_, l, r) => AllEmpty(l) && AllEmpty(r)
    case Unary(_, a) => AllEmpty(a)
    case Paren(a) => AllEmpty(a)
    case _ => false
  }

  lemma {:induction false} TextsLength(e: Term, fixed: string -> bool)
    requires TextsOnly(e)
    ensures LeadKind(e, fixed) == String && (TextLength(e, fixed) == 0 <==> AllEmpty(e))
    ensures Meaning(e, fixed).fields == {}
  {
    match e {
      case Call(_, a) => SameFields(e, a, fixed); TextsLength(a, fixed);
      case Unary(_, a) => SameFields(e, a, fixed); TextsLength(a, fixed);
      case Paren(a) => SameFields(e, a, fixed); TextsLength(a, fixed);
      case Comma(l, r) => MeaningOfJoin(l, r, "", fixed); TextsLength(l, fixed); TextsLength(r, fixed);
      case Binary(op, l, r) => MeaningOfJoin(l, r, op, fixed); TextsLength(l, fixed); TextsLength(r, fixed);
      case Text(_) =>
    }
  }

  /** A column compared with texts, however they are put together, is taken for an empty password exactly
      when it has one of the three names and all the texts are empty. */
  lemma EmptyPasswordIff(name: string, e: Term, fixed: string -> bool)
    requires TextsOnly(e) && !fixed(name)
    ensures ComparesEmptyPassword(Meaning(Column(name), fixed), Meaning(e, fixed)) <==>
            IsPasswordName(name) && AllEmpty(e)
  {
    TextsLength(e, fixed);
    var a := Meaning(Column(name), fixed);
    ColumnIn(Column(name), fixed, name);
    assert a.fields == {name};
    assert forall n: string :: a.fields == {n} ==> n in a.fields;
  }
}
