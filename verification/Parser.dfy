/** The parse itself: bison's value stack, the two registries that own every object the actions
    create, and query_parse, which empties them.  Models the semantic actions of src/parser/sql.ypp,
    the registries of src/parser/expression.hpp and src/parser/parser.cpp. */
module Parser {
  import opened Expressions
  import opened Grammar

  /** What a grammar symbol carries. */
  datatype Value = Str(str: SQLString) | Exp(exp: Expression) | Num(num: int)

  /** No element occurs twice. */
  predicate Distinct<T(==)>(s: seq<T>) {
    forall i, j :: 0 <= i < j < |s| ==> s[i] != s[j]
  }

  /** `list.erase(itr)`: the one element x. */
  function Without<T(==)>(s: seq<T>, x: T): seq<T> {
    if s == [] then [] else if s[0] == x then s[1..] else [s[0]] + Without(s[1..], x)
  }

  lemma {:induction false} WithoutIs<T>(s: seq<T>, x: T)
    requires Distinct(s) && x in s
    ensures Distinct(Without(s, x)) && x !in Without(s, x)
    ensures forall y :: y in s <==> y in Without(s, x) || y == x
  {
    if s[0] == x {
      assert forall y :: y in s <==> y == s[0] || y in s[1..];
    } else {
      var t := Without(s[1..], x);
      assert x in s[1..];
      WithoutIs(s[1..], x);
      assert Without(s, x) == [s[0]] + t;
      forall y ensures y in s <==> y in Without(s, x) || y == x {
        assert y in s <==> y == s[0] || y in s[1..];
        assert y in Without(s, x) <==> y == s[0] || y in t;
      }
      assert s[0] !in s[1..];
      assert s[0] !in t;
    }
  }

  /** What a value stands for. */
  ghost function ItemOf(v: Value): Item
    reads if v.Exp? then {v.exp} else {}
  {
    match v
    case Str(s) => Name(s.strValue)
    case Exp(x) => Sum(x.Value())
    case Num(n) => Figure(n)
  }

  class State {
    /** The registries, newest first. */
    var sqlStrings: seq<SQLString>
    var expressions: seq<Expression>
    var stack: seq<Value>
    var hasTautology: bool
    var hasEmptyPwd: bool
    /** The names that the true-constants pattern matches. */
    const matches: string -> bool
    const fixed: string -> bool := TrueConstant(matches)
    ghost var created: set<object>
    ghost var freed: set<object>

    ghost function Live(): set<object>
      reads this
    {
      (set x | x in sqlStrings) + (set x | x in expressions)
    }

    /** The registries hold exactly the objects created and not yet deleted, once each, and every
        value on the parse stack is one of them, on the stack only once. */
    ghost predicate Valid()
      reads this
    {
      && Distinct(sqlStrings) && Distinct(expressions)
      && created == freed + Live() && freed !! Live()
      && (forall i :: 0 <= i < |stack| && stack[i].Str? ==> stack[i].str in sqlStrings)
      && (forall i :: 0 <= i < |stack| && stack[i].Exp? ==> stack[i].exp in expressions)
      && (forall i, j :: 0 <= i < j < |stack| && (stack[i].Str? || stack[i].Exp?) ==> stack[i] != stack[j])
    }

    constructor (matches: string -> bool)
      ensures Valid() && created == {} && stack == [] && this.matches == matches
      ensures !hasTautology && !hasEmptyPwd
    {
      sqlStrings, expressions, stack := [], [], [];
      hasTautology, hasEmptyPwd := false, false;
      this.matches := matches;
      created, freed := {}, {};
    }

    /** new SQLString: the constructor puts the object at the head of its registry. */
    method NewString(text: string) returns (s: SQLString)
      requires Valid()
      modifies this`sqlStrings, this`created
      ensures Valid() && fresh(s) && s.strValue == text
      ensures sqlStrings == [s] + old(sqlStrings) && created == old(created) + {s}
      ensures s in sqlStrings && Str(s) !in stack
    {
      s := new SQLString(text);
      sqlStrings := [s] + sqlStrings;
      created := created + {s};
    }

    method NewExpression() returns (x: Expression)
      requires Valid()
      modifies this`expressions, this`created
      ensures Valid() && fresh(x) && x.Value() == Summary({}, false, Undef, 0)
      ensures expressions == [x] + old(expressions) && created == old(created) + {x}
      ensures x in expressions && Exp(x) !in stack
    {
      x := new Expression();
      expressions := [x] + expressions;
      created := created + {x};
    }

    /** delete: only an object that is still there, and on nobody's stack, may be deleted. */
    method DeleteString(s: SQLString)
      requires Valid() && s in sqlStrings && Str(s) !in stack
      modifies this`sqlStrings, this`freed
      ensures Valid() && sqlStrings == Without(old(sqlStrings), s) && s !in sqlStrings && freed == old(freed) + {s}
    {
      WithoutIs(sqlStrings, s);
      sqlStrings := Without(sqlStrings, s);
      freed := freed + {s};
    }

    method DeleteExpression(x: Expression)
      requires Valid() && x in expressions && Exp(x) !in stack
      modifies this`expressions, this`freed
      ensures Valid() && expressions == Without(old(expressions), x) && x !in expressions && freed == old(freed) + {x}
    {
      WithoutIs(expressions, x);
      expressions := Without(expressions, x);
      freed := freed + {x};
    }

    // -------------------------------------------------------------- the value stack

    method Push(v: Value)
      requires Valid()
      requires v.Str? ==> v.str in sqlStrings && v !in stack
      requires v.Exp? ==> v.exp in expressions && v !in stack
      modifies this`stack
      ensures Valid() && stack == old(stack) + [v]
    {
      stack := stack + [v];
    }

    method Pop() returns (v: Value)
      requires Valid() && stack != []
      modifies this`stack
      ensures Valid() && old(stack) == stack + [v] && v == old(stack[|stack| - 1]) && stack == old(stack[..|stack| - 1])
      ensures v.Str? ==> v.str in sqlStrings && v !in stack
      ensures v.Exp? ==> v.exp in expressions && v !in stack
    {
      v := stack[|stack| - 1];
      stack := stack[..|stack| - 1];
      assert old(stack) == stack + [v];
    }

    /** The kind of the i-th value from the top. */
    predicate StringAt(i: nat)
      reads this
    {
      i < |stack| && stack[|stack| - 1 - i].Str?
    }

    predicate ExpressionAt(i: nat)
      reads this
    {
      i < |stack| && stack[|stack| - 1 - i].Exp?
    }

    function ValueAt(i: nat): Value
      requires i < |stack|
      reads this
    {
      stack[|stack| - 1 - i]
    }

    // -------------------------------------------------------------- tokens

    method ShiftString(text: string)
      requires Valid()
      modifies this`stack, this`sqlStrings, this`created
      ensures Valid() && |stack| == |old(stack)| + 1 && stack[..|old(stack)|] == old(stack)
      ensures StringAt(0) && ValueAt(0).str.strValue == text && fresh(ValueAt(0).str)
    {
      var s := NewString(text);
      Push(Str(s));
    }

    // -------------------------------------------------------------- reductions

    /** table_field: name DOT name; the first name stays in its registry. */
    method DoQualified()
      requires Valid() && StringAt(0) && StringAt(1)
      modifies this`stack
      ensures Valid() && stack == old(stack[..|stack| - 2] + [ValueAt(0)])
    {
      var name := Pop();
      var table := Pop();
      Push(name);
    }

    /** field: table_field */
    method DoField()
      requires Valid() && StringAt(0)
      modifies this`stack, this`sqlStrings, this`expressions, this`created, this`freed
      ensures Valid() && ExpressionAt(0) && stack == old(stack[..|stack| - 1]) + [ValueAt(0)]
      ensures fresh(ValueAt(0).exp) && expressions == [ValueAt(0).exp] + old(expressions)
      ensures ValueAt(0).exp.Value() == Meaning(Column(old(ValueAt(0)).str.strValue), fixed)
      ensures var name := old(ValueAt(0)).str;
              sqlStrings == if fixed(name.strValue) then old(sqlStrings) else Without(old(sqlStrings), name)
    {
      hide Valid;
      var v := Pop();
      var x := NewExpression();
      if |v.str.strValue| > 0 && matches(v.str.strValue) {
        var fn := NewString("fn()");
        x.AddConstString(fn);
        DeleteString(fn);
      } else {
        x.AddField(v.str);
        DeleteString(v.str);
      }
      Push(Exp(x));
    }

    /** const_value: Q_STRING or DQ_STRING */
    method DoText()
      requires Valid() && StringAt(0)
      modifies this`stack, this`sqlStrings, this`expressions, this`created, this`freed
      ensures Valid() && ExpressionAt(0) && stack == old(stack[..|stack| - 1]) + [ValueAt(0)]
      ensures fresh(ValueAt(0).exp) && expressions == [ValueAt(0).exp] + old(expressions)
      ensures ValueAt(0).exp.Value() == Meaning(Text(old(ValueAt(0)).str.strValue), fixed)
      ensures sqlStrings == Without(old(sqlStrings), old(ValueAt(0)).str)
    {
      hide Valid;
      var v := Pop();
      var x := NewExpression();
      x.AddConstString(v.str);
      DeleteString(v.str);
      Push(Exp(x));
    }

    /** const_value: INTEGER and the others with an int value */
    method DoNumber()
      requires Valid() && stack != [] && ValueAt(0).Num?
      modifies this`stack, this`expressions, this`created
      ensures Valid() && ExpressionAt(0) && stack == old(stack[..|stack| - 1]) + [ValueAt(0)]
      ensures fresh(ValueAt(0).exp) && expressions == [ValueAt(0).exp] + old(expressions)
      ensures ValueAt(0).exp.Value() == Meaning(Number(old(ValueAt(0)).num), fixed)
    {
      hide Valid;
      var v := Pop();
      var x := NewExpression();
      x.AddConstInt(v.num);
      Push(Exp(x));
    }

    /** field: simple_fn; the function's name stays in its registry. */
    method DoNoArgCall()
      requires Valid() && StringAt(0)
      modifies this`stack, this`sqlStrings, this`expressions, this`created, this`freed
      ensures Valid() && ExpressionAt(0) && stack == old(stack[..|stack| - 1]) + [ValueAt(0)]
      ensures fresh(ValueAt(0).exp) && expressions == [ValueAt(0).exp] + old(expressions)
      ensures ValueAt(0).exp.Value() == Meaning(NoArgCall(old(ValueAt(0)).str.strValue), fixed)
      ensures sqlStrings == old(sqlStrings)
    {
      hide Valid;
      var v := Pop();
      var x := NewExpression();
      var fn := NewString("fn()");
      x.AddConstString(fn);
      DeleteString(fn);
      Push(Exp(x));
    }

    /** fn: STRING O_BRACE fn_args C_BRACE; the name stays in its registry. */
    method DoCall()
      requires Valid() && ExpressionAt(0) && StringAt(1)
      modifies this`stack
      ensures Valid() && stack == old(stack[..|stack| - 2] + [ValueAt(0)])
    {
      var args := Pop();
      var fn := Pop();
      Push(args);
    }

    /** math_exp: math_exp op field, and fn_args: fn_args COMMA fn_args: the right one is merged into
        the left one and deleted. */
    method DoMerge()
      requires Valid() && ExpressionAt(0) && ExpressionAt(1)
      modifies this`stack, this`expressions, this`freed, ValueAt(1).exp
      ensures Valid() && stack == old(stack[..|stack| - 1])
      ensures old(ValueAt(1)).exp.Value() == Join(old(ValueAt(1).exp.Value()), old(ValueAt(0).exp.Value()))
      ensures expressions == Without(old(expressions), old(ValueAt(0)).exp)
      ensures forall x :: x in expressions ==> x in old(expressions)
    {
      assert ValueAt(1) != ValueAt(0);
      assert ValueAt(1).exp in expressions;
      var right := Pop();
      var left := Pop();
      left.exp.Add(right.exp);
      DeleteExpression(right.exp);
      WithoutIs(old(expressions), right.exp);
      Push(left);
      assert old(stack[..|stack| - 1]) == old(stack[..|stack| - 2]) + [left];
    }

    /** logical_exp: math_exp */
    method DoTruth()
      requires Valid() && ExpressionAt(0)
      modifies this`stack, this`hasTautology
      ensures Valid() && stack == old(stack[..|stack| - 1])
      ensures hasTautology <==> old(hasTautology) || old(ValueAt(0).exp.fields == {} && ValueAt(0).exp.hasConst)
    {
      var v := Pop();
      var r := v.exp.IsTrue();
      if r {
        hasTautology := true;
      }
    }

    /** select_exp: MULTIPLY */
    method DoStar()
      requires Valid()
      modifies this`stack, this`expressions, this`created
      ensures Valid() && ExpressionAt(0) && stack == old(stack) + [ValueAt(0)]
      ensures fresh(ValueAt(0).exp) && expressions == [ValueAt(0).exp] + old(expressions)
      ensures ValueAt(0).exp.Value() == Summary({}, false, Undef, 0)
    {
      hide Valid;
      var x := NewExpression();
      Push(Exp(x));
    }

    /** simple_table: a table's name counts as a column, whatever the true-constants pattern says. */
    method DoTable()
      requires Valid() && StringAt(0)
      modifies this`stack, this`sqlStrings, this`expressions, this`created, this`freed
      ensures Valid() && ExpressionAt(0) && stack == old(stack[..|stack| - 1]) + [ValueAt(0)]
      ensures fresh(ValueAt(0).exp) && expressions == [ValueAt(0).exp] + old(expressions)
      ensures ValueAt(0).exp.Value() == Summary({old(ValueAt(0)).str.strValue}, false, Undef, 0)
      ensures sqlStrings == Without(old(sqlStrings), old(ValueAt(0)).str)
    {
      hide Valid;
      var v := Pop();
      var x := NewExpression();
      x.AddField(v.str);
      DeleteString(v.str);
      Push(Exp(x));
    }

    /** cmp_fn: flag a tautology, or else an empty password; both values stay where they are. */
    method DoCompareAt(left: nat, right: nat)
      requires Valid() && ExpressionAt(left) && ExpressionAt(right)
      modifies this`hasTautology, this`hasEmptyPwd
      ensures Valid()
      ensures var l, r := old(ValueAt(left).exp.Value()), old(ValueAt(right).exp.Value());
              && (hasTautology <==> old(hasTautology) || Similar(l, r))
              && (hasEmptyPwd <==> old(hasEmptyPwd) || (!Similar(l, r) && ComparesEmptyPassword(l, r)))
    {
      var xp1, xp2 := ValueAt(left).exp, ValueAt(right).exp;
      var same := xp1.Comp(xp2);
      if same {
        hasTautology := true;
      } else {
        var empty := xp1.IsEmptyPwd(xp2);
        if empty {
          hasEmptyPwd := true;
        }
      }
    }

    method DoDiscardUnder()
      requires Valid() && |stack| >= 2
      modifies this`stack
      ensures Valid() && stack == old(stack[..|stack| - 2] + [ValueAt(0)])
    {
      var top := Pop();
      var under := Pop();
      Push(top);
    }

    /** logical_exp: math_exp comp_operator math_exp, through cmp_fn. */
    method DoCompare()
      requires Valid() && ExpressionAt(0) && ExpressionAt(1)
      modifies this`stack, this`hasTautology, this`hasEmptyPwd
      ensures Valid() && stack == old(stack[..|stack| - 2])
      ensures hasTautology <==> old(hasTautology) || Similar(old(ValueAt(1).exp.Value()), old(ValueAt(0).exp.Value()))
      ensures var l, r := old(ValueAt(1).exp.Value()), old(ValueAt(0).exp.Value());
              hasEmptyPwd <==> old(hasEmptyPwd) || (!Similar(l, r) && ComparesEmptyPassword(l, r))
    {
      DoCompareAt(1, 0);
      var right := Pop();
      var left := Pop();
    }

    // -------------------------------------------------------------- whole expressions

    /** The reductions for an expression, in the parser's order: one expression is left, with exactly
        what e means, and of all the objects made on the way it alone is still in the registry. */
    method Build(e: Term)
      requires Valid()
      modifies this`stack, this`sqlStrings, this`expressions, this`created, this`freed
      ensures Valid() && ExpressionAt(0) && stack == old(stack) + [ValueAt(0)]
      ensures fresh(ValueAt(0).exp) && expressions == [ValueAt(0).exp] + old(expressions)
      ensures ValueAt(0).exp.Value() == Meaning(e, fixed)
      decreases e, 1
    {
      hide Valid, Meaning, Join, Without;
      match e
      case Column(n) =>
        ShiftString(n);
        DoField();
      case Qualified(t, n) =>
        ShiftString(t);
        ShiftString(n);
        DoQualified();
        DoField();
        MeaningOfQualified(t, n, fixed);
      case Number(i) =>
        Push(Num(i));
        DoNumber();
      case Text(t) =>
        ShiftString(t);
        DoText();
      case NoArgCall(f) =>
        ShiftString(f);
        DoNoArgCall();
      case Call(f, a) =>
        ShiftString(f);
        Build(a);
        DoCall();
        MeaningOfWrapped(a, f, fixed);
      case Comma(l, r) =>
        BuildPair(l, r, e);
        MeaningOfJoin(l, r, "", fixed);
      case Binary(op, l, r) =>
        BuildPair(l, r, e);
        MeaningOfJoin(l, r, op, fixed);
      case Unary(op, a) =>
        Build(a);
        MeaningOfWrapped(a, op, fixed);
      case Paren(a) =>
        Build(a);
        MeaningOfWrapped(a, "", fixed);
    }

    /** Two expressions, merged into the left one. */
    method BuildPair(l: Term, r: Term, ghost e: Term)
      requires Valid() && l < e && r < e
      modifies this`stack, this`sqlStrings, this`expressions, this`created, this`freed
      ensures Valid() && ExpressionAt(0) && stack == old(stack) + [ValueAt(0)]
      ensures fresh(ValueAt(0).exp) && expressions == [ValueAt(0).exp] + old(expressions)
      ensures ValueAt(0).exp.Value() == Join(Meaning(l, fixed), Meaning(r, fixed))
      decreases e, 0
    {
      hide Valid, Meaning, Join;
      Build(l);
      Build(r);
      DoMerge();
    }

    /** A comparison sets the tautology flag exactly when its two sides have the same columns, and
        constants both or neither unless there are no columns. */
    method ParseComparison(l: Term, r: Term)
      requires Valid()
      modifies this`stack, this`sqlStrings, this`expressions, this`created, this`freed, this`hasTautology, this`hasEmptyPwd
      ensures Valid() && stack == old(stack)
      ensures hasTautology <==> old(hasTautology) || Similar(Meaning(l, fixed), Meaning(r, fixed))
      ensures var a, b := Meaning(l, fixed), Meaning(r, fixed);
              hasEmptyPwd <==> old(hasEmptyPwd) || (!Similar(a, b) && ComparesEmptyPassword(a, b))
    {
      hide Valid;
      Build(l);
      Build(r);
      DoCompare();
    }

    /** A condition without a comparison sets it exactly when it has no columns. */
    method ParseTruth(e: Term)
      requires Valid()
      modifies this`stack, this`sqlStrings, this`expressions, this`created, this`freed, this`hasTautology
      ensures Valid() && stack == old(stack)
      ensures hasTautology <==> old(hasTautology) || Meaning(e, fixed).fields == {}
    {
      hide Valid;
      ColumnOrConst(e, fixed);
      Build(e);
      DoTruth();
    }

    // -------------------------------------------------------------- any parse, to its end

    /** What the stack and the flags stand for. */
    ghost function Picture(): (k: Sketch)
      reads this, set v | v in stack && v.Exp? :: v.exp
    {
      Sketch(seq(|stack|, i requires 0 <= i < |stack| reads this, set v | v in stack && v.Exp? :: v.exp => ItemOf(stack[i])),
             hasTautology, hasEmptyPwd)
    }

    /** Do the values on the stack fit the action?  When they do not, bison reports a syntax error. */
    predicate Fits(a: Action)
      reads this
    {
      match a
      case ShiftName(_) => true
      case ShiftText(_) => true
      case ShiftNumber(_) => true
      case ReduceQualified => StringAt(0) && StringAt(1)
      case ReduceField => StringAt(0)
      case ReduceText => StringAt(0)
      case ReduceNumber => stack != [] && ValueAt(0).Num?
      case ReduceNoArgCall => StringAt(0)
      case ReduceCall => ExpressionAt(0) && StringAt(1)
      case ReduceMerge => ExpressionAt(0) && ExpressionAt(1)
      case ReduceTruth => ExpressionAt(0)
      case ReduceCompare => ExpressionAt(0) && ExpressionAt(1)
      case ReduceStar => true
      case ReduceTable => StringAt(0)
      case CompareAt(l, r) => ExpressionAt(l) && ExpressionAt(r)
      case FlagTautology => true
      case Discard => stack != []
      case DiscardUnder => |stack| >= 2
    }

    lemma FitsIsAccepts(a: Action)
      ensures Fits(a) <==> Accepts(Picture(), a)
    {
    }

    /** One action does to the stack and the flags what the grammar says. */
    method Execute(a: Action)
      requires Valid() && Fits(a)
      modifies this, set x | x in expressions
      ensures Valid()
      ensures Accepts(old(Picture()), a) && Picture() == After(old(Picture()), a, fixed)
      ensures forall x :: x in expressions ==> x in old(expressions) || fresh(x)
    {
      hide Meaning, After, Accepts, Picture;
      FitsIsAccepts(a);
      match a
      case ShiftName(_) => ExecuteToken(a);
      case ShiftText(_) => ExecuteToken(a);
      case ShiftNumber(_) => ExecuteToken(a);
      case ReduceField => ExecuteLeaf(a);
      case ReduceText => ExecuteLeaf(a);
      case ReduceNumber => ExecuteNew(a);
      case ReduceNoArgCall => ExecuteLeaf(a);
      case ReduceStar => ExecuteNew(a);
      case ReduceTable => ExecuteLeaf(a);
      case ReduceMerge => ExecuteMerge();
      case ReduceTruth => ExecuteFlag(a);
      case ReduceCompare => ExecuteFlag(a);
      case CompareAt(_, _) => ExecuteFlag(a);
      case FlagTautology => ExecuteChain();
      case _ => ExecuteOther(a);
    }

    method ExecuteToken(a: Action)
      requires Valid() && (a.ShiftName? || a.ShiftText? || a.ShiftNumber?)
      modifies this`stack, this`sqlStrings, this`created
      ensures Valid() && Picture() == After(old(Picture()), a, fixed)
    {
      hide Valid;
      match a
      case ShiftName(t) => ShiftString(t);
      case ShiftText(t) => ShiftString(t);
      case ShiftNumber(v) => Push(Num(v));
    }

    method ExecuteLeaf(a: Action)
      requires Valid() && Fits(a)
      requires a.ReduceField? || a.ReduceText? || a.ReduceNoArgCall? || a.ReduceTable?
      modifies this`stack, this`sqlStrings, this`expressions, this`created, this`freed
      ensures Valid() && Picture() == After(old(Picture()), a, fixed)
      ensures forall x :: x in expressions ==> x in old(expressions) || fresh(x)
    {
      hide Valid, Meaning;
      match a
      case ReduceField => LeafMeaning(Column(ValueAt(0).str.strValue), fixed); DoField();
      case ReduceText => LeafMeaning(Text(ValueAt(0).str.strValue), fixed); DoText();
      case ReduceNoArgCall => LeafMeaning(NoArgCall(ValueAt(0).str.strValue), fixed); DoNoArgCall();
      case ReduceTable => DoTable();
    }

    method ExecuteNew(a: Action)
      requires Valid() && Fits(a) && (a.ReduceNumber? || a.ReduceStar?)
      modifies this`stack, this`expressions, this`created
      ensures Valid() && Picture() == After(old(Picture()), a, fixed)
      ensures forall x :: x in expressions ==> x in old(expressions) || fresh(x)
    {
      hide Valid, Meaning;
      match a
      case ReduceNumber => LeafMeaning(Number(ValueAt(0).num), fixed); DoNumber();
      case ReduceStar => DoStar();
    }

    method ExecuteMerge()
      requires Valid() && Fits(ReduceMerge)
      modifies this`stack, this`expressions, this`freed, ValueAt(1).exp
      ensures Valid() && Picture() == After(old(Picture()), ReduceMerge, fixed)
      ensures forall x :: x in expressions ==> x in old(expressions)
    {
      DoMerge();
    }

    method ExecuteFlag(a: Action)
      requires Valid() && Fits(a) && (a.ReduceTruth? || a.ReduceCompare? || a.CompareAt?)
      modifies this`stack, this`hasTautology, this`hasEmptyPwd
      ensures Valid() && Picture() == After(old(Picture()), a, fixed)
    {
      hide Similar, ComparesEmptyPassword;
      match a
      case ReduceTruth => DoTruth();
      case ReduceCompare => DoCompare();
      case CompareAt(l, r) => DoCompareAt(l, r);
    }

    method ExecuteOther(a: Action)
      requires Valid() && Fits(a)
      requires a.ReduceQualified? || a.ReduceCall? || a.Discard? || a.DiscardUnder?
      modifies this`stack
      ensures Valid() && Picture() == After(old(Picture()), a, fixed)
    {
      hide Valid;
      match a
      case ReduceQualified => DoQualified();
      case ReduceCall => DoCall();
      case Discard => var v := Pop();
      case DiscardUnder => DoDiscardUnder();
    }

    /** logical_exp: three expressions compared in a row */
    method ExecuteChain()
      requires Valid()
      modifies this`hasTautology
      ensures Valid() && Picture() == After(old(Picture()), FlagTautology, fixed)
    {
      hasTautology := true;
    }

    /** query_parse: whatever is parsed, and wherever parsing stops, the flags are those of the actions
        that were run, both registries end up empty and every object that was created has been deleted;
        Valid says that none was deleted twice. */
    method QueryParse(actions: seq<Action>)
      requires Valid() && sqlStrings == [] && expressions == [] && stack == []
      modifies this
      ensures Valid() && sqlStrings == [] && expressions == [] && freed == created
      ensures hasTautology <==> Parsed(START, actions, fixed).tautology
      ensures hasEmptyPwd <==> Parsed(START, actions, fixed).emptyPwd
    {
      hide Parsed, Complete, After, Accepts;
      hasTautology, hasEmptyPwd := false, false;
      AtStart(fixed);
      for i := 0 to |actions|
        invariant Valid()
        invariant forall x :: x in expressions ==> fresh(x)
        invariant Complete(START, actions[..i], fixed) && Picture() == Parsed(START, actions[..i], fixed)
      {
        ParsedNext(START, actions, i, fixed);
        FitsIsAccepts(actions[i]);
        if !Fits(actions[i]) {
          assert Picture() == Parsed(START, actions, fixed);
          break;
        }
        Execute(actions[i]);
      }
      assert actions[..|actions|] == actions;
      // nothing refers to the parser's stack once it has returned
      stack := [];
      FreeSqlStrings();
      FreeExpressions();
    }

    method FreeSqlStrings()
      requires Valid() && stack == []
      modifies this`sqlStrings, this`freed
      ensures Valid() && sqlStrings == []
    {
      while sqlStrings != []
        invariant Valid() && stack == []
        decreases |sqlStrings|
      {
        DeleteString(sqlStrings[0]);
      }
    }

    method FreeExpressions()
      requires Valid() && stack == []
      modifies this`expressions, this`freed
      ensures Valid() && expressions == []
    {
      while expressions != []
        invariant Valid() && stack == []
        decreases |expressions|
      {
        DeleteExpression(expressions[0]);
      }
    }
  }
}
