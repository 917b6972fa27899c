/** The decision on a query, and learning.  Models check_query and calculateRisk of
    src/connection.cpp, and query_risk of src/parser/parser.hpp. */
module Verdict {
  import opened Text
  import opened Literals
  import opened Normalize
  import opened Whitelist

  // ---------------------------------------------------------------- risk

  /** What the parser found in the query. */
  datatype Flags = Flags(
    hasComment: bool, hasSTable: bool, hasSeparator: bool, hasOr: bool,
    hasUnion: bool, hasTautology: bool, hasEmptyPwd: bool, hasBruteforce: bool)

  /** The weights and levels of the configuration: signed ints. */
  datatype Config = Config(
    sqlComments: int, sTables: int, multipleQueries: int, orToken: int,
    unionToken: int, varCmpVar: int, emptyPassword: int, bruteforce: int,
    blockLevel: int, warnLevel: int)

  predicate IsInt32(x: int) {
    -0x8000_0000 <= x < 0x8000_0000
  }

  predicate ValidConfig(c: Config) {
    && IsInt32(c.sqlComments) && IsInt32(c.sTables) && IsInt32(c.multipleQueries) && IsInt32(c.orToken)
    && IsInt32(c.unionToken) && IsInt32(c.varCmpVar) && IsInt32(c.emptyPassword) && IsInt32(c.bruteforce)
    && IsInt32(c.blockLevel) && IsInt32(c.warnLevel)
  }

  function Counted(weight: int, found: bool): nat {
    if weight > 0 && found then weight else 0
  }

  /** The sum of the positive weights of what was found. */
  function TotalRisk(f: Flags, c: Config): nat {
    FirstRisks(f, c) + LastRisks(f, c)
  }

  function FirstRisks(f: Flags, c: Config): nat {
    Counted(c.sqlComments, f.hasComment) + Counted(c.sTables, f.hasSTable)
    + Counted(c.multipleQueries, f.hasSeparator) + Counted(c.orToken, f.hasOr)
  }

  function LastRisks(f: Flags, c: Config): nat {
    Counted(c.unionToken, f.hasUnion) + Counted(c.varCmpVar, f.hasTautology)
    + Counted(c.emptyPassword, f.hasEmptyPwd) + Counted(c.bruteforce, f.hasBruteforce)
  }

  const ALL_FLAGS := Flags(true, true, true, true, true, true, true, true)
  const NO_FLAGS := Flags(false, false, false, false, false, false, false, false)

  /** An unsigned int, and that value as an int. */
  function Wrap32(x: nat): (w: nat)
    ensures w < 0x1_0000_0000
  {
    if x < 0x1_0000_0000 then x else Wrap32(x - 0x1_0000_0000)
  }

  function AsInt(x: nat): int
    requires x < 0x1_0000_0000
  {
    if x < 0x8000_0000 then x else x - 0x1_0000_0000
  }

  /** Wrapping keeps the remainder, and reading the result as an int keeps it up to 2^32, within the int range. */
  lemma WrapIs(x: nat)
    ensures Wrap32(x) == x % 0x1_0000_0000
    ensures IsInt32(AsInt(Wrap32(x))) && (x - AsInt(Wrap32(x))) % 0x1_0000_0000 == 0
    ensures x < 0x8000_0000 ==> AsInt(Wrap32(x)) == x
  {
    WrapRemainder(x);
    var q := x / 0x1_0000_0000;
    assert x - Wrap32(x) == q * 0x1_0000_0000;
    assert x - AsInt(Wrap32(x)) == (if Wrap32(x) < 0x8000_0000 then q else q + 1) * 0x1_0000_0000;
  }

  lemma {:induction false} WrapRemainder(x: nat)
    ensures Wrap32(x) == x % 0x1_0000_0000
  {
    if x >= 0x1_0000_0000 {
      WrapRemainder(x - 0x1_0000_0000);
    }
  }

  /** Where nothing was found there is no risk. */
  lemma NoRisk(c: Config)
    ensures TotalRisk(Flags(false, false, false, false, false, false, false, false), c) == 0
  {
  }

  /** Each finding adds its own weight, if that is positive, whatever else was found. */
  lemma EachWeight(f: Flags, c: Config)
    ensures TotalRisk(f.(hasComment := true), c) == TotalRisk(f.(hasComment := false), c) + Positive(c.sqlComments)
    ensures TotalRisk(f.(hasSTable := true), c) == TotalRisk(f.(hasSTable := false), c) + Positive(c.sTables)
    ensures TotalRisk(f.(hasSeparator := true), c) == TotalRisk(f.(hasSeparator := false), c) + Positive(c.multipleQueries)
    ensures TotalRisk(f.(hasOr := true), c) == TotalRisk(f.(hasOr := false), c) + Positive(c.orToken)
  {
    hide FirstRisks, LastRisks, Positive;
    CommentAndTableWeights(f, c);
    SeparatorAndOrWeights(f, c);
    LastUnmoved(f, c);
  }

  /** So do the other four. */
  lemma EachOtherWeight(f: Flags, c: Config)
    ensures TotalRisk(f.(hasUnion := true), c) == TotalRisk(f.(hasUnion := false), c) + Positive(c.unionToken)
    ensures TotalRisk(f.(hasTautology := true), c) == TotalRisk(f.(hasTautology := false), c) + Positive(c.varCmpVar)
    ensures TotalRisk(f.(hasEmptyPwd := true), c) == TotalRisk(f.(hasEmptyPwd := false), c) + Positive(c.emptyPassword)
    ensures TotalRisk(f.(hasBruteforce := true), c) == TotalRisk(f.(hasBruteforce := false), c) + Positive(c.bruteforce)
  {
    hide FirstRisks, LastRisks, Positive;
    UnionAndTautologyWeights(f, c);
    PasswordAndBruteforceWeights(f, c);
    FirstUnmoved(f, c);
  }

  lemma CommentAndTableWeights(f: Flags, c: Config)
    ensures FirstRisks(f.(hasComment := true), c) == FirstRisks(f.(hasComment := false), c) + Positive(c.sqlComments)
    ensures FirstRisks(f.(hasSTable := true), c) == FirstRisks(f.(hasSTable := false), c) + Positive(c.sTables)
  {
    hide Counted, Positive;
    CountedIs(c.sqlComments);
    CountedIs(c.sTables);
  }

  lemma SeparatorAndOrWeights(f: Flags, c: Config)
    ensures FirstRisks(f.(hasSeparator := true), c) == FirstRisks(f.(hasSeparator := false), c) + Positive(c.multipleQueries)
    ensures FirstRisks(f.(hasOr := true), c) == FirstRisks(f.(hasOr := false), c) + Positive(c.orToken)
  {
    hide Counted, Positive;
    CountedIs(c.multipleQueries);
    CountedIs(c.orToken);
  }

  lemma LastUnmoved(f: Flags, c: Config)
    ensures LastRisks(f.(hasComment := true), c) == LastRisks(f.(hasComment := false), c)
    ensures LastRisks(f.(hasSTable := true), c) == LastRisks(f.(hasSTable := false), c)
    ensures LastRisks(f.(hasSeparator := true), c) == LastRisks(f.(hasSeparator := false), c)
    ensures LastRisks(f.(hasOr := true), c) == LastRisks(f.(hasOr := false), c)
  {
    hide Counted;
  }

  lemma UnionAndTautologyWeights(f: Flags, c: Config)
    ensures LastRisks(f.(hasUnion := true), c) == LastRisks(f.(hasUnion := false), c) + Positive(c.unionToken)
    ensures LastRisks(f.(hasTautology := true), c) == LastRisks(f.(hasTautology := false), c) + Positive(c.varCmpVar)
  {
    hide Counted, Positive;
    CountedIs(c.unionToken);
    CountedIs(c.varCmpVar);
  }

  lemma PasswordAndBruteforceWeights(f: Flags, c: Config)
    ensures LastRisks(f.(hasEmptyPwd := true), c) == LastRisks(f.(hasEmptyPwd := false), c) + Positive(c.emptyPassword)
    ensures LastRisks(f.(hasBruteforce := true), c) == LastRisks(f.(hasBruteforce := false), c) + Positive(c.bruteforce)
  {
    hide Counted, Positive;
    CountedIs(c.emptyPassword);
    CountedIs(c.bruteforce);
  }

  lemma FirstUnmoved(f: Flags, c: Config)
    ensures FirstRisks(f.(hasUnion := true), c) == FirstRisks(f.(hasUnion := false), c)
    ensures FirstRisks(f.(hasTautology := true), c) == FirstRisks(f.(hasTautology := false), c)
    ensures FirstRisks(f.(hasEmptyPwd := true), c) == FirstRisks(f.(hasEmptyPwd := false), c)
    ensures FirstRisks(f.(hasBruteforce := true), c) == FirstRisks(f.(hasBruteforce := false), c)
  {
    hide Counted;
  }

  function Positive(weight: int): nat {
    if weight > 0 then weight else 0
  }

  lemma CountedIs(weight: int)
    ensures Counted(weight, true) == Positive(weight) && Counted(weight, false) == 0
  {
  }

  method CalculateRisk(risk: Flags, conf: Config) returns (ret: nat, reason: seq<string>)
    requires ValidConfig(conf)
    ensures ret == Wrap32(TotalRisk(risk, conf))
    ensures reason == [] <==> TotalRisk(risk, conf) == 0
  {
    hide Wrap32, Counted;
    NoWrap(0);
    ghost var total := 0;
    ret, reason := 0, [];
    ret, reason, total := Weigh(ret, reason, total, conf.sqlComments, risk.hasComment, "Query has comments\n");
    ret, reason, total := Weigh(ret, reason, total, conf.sTables, risk.hasSTable, "Query uses sensitive tables\n");
    ret, reason, total := Weigh(ret, reason, total, conf.multipleQueries, risk.hasSeparator, "Multiple queries found\n");
    ret, reason, total := Weigh(ret, reason, total, conf.orToken, risk.hasOr, "Query has 'or' token\n");
    ret, reason, total := Weigh(ret, reason, total, conf.unionToken, risk.hasUnion, "Query has 'union' token\n");
    ret, reason, total := Weigh(ret, reason, total, conf.varCmpVar, risk.hasTautology,
                                "True expression detected (SQL tautology)\n");
    ret, reason, total := Weigh(ret, reason, total, conf.emptyPassword, risk.hasEmptyPwd,
                                "Query has empty password expression\n");
    ret, reason, total := Weigh(ret, reason, total, conf.bruteforce, risk.hasBruteforce,
                                "Query has SQL fuction that can be used to bruteforce db contents\n");
  }

  /** One of the eight checks: a positive weight counts where its flag is set. */
  method Weigh(before: nat, reasons: seq<string>, ghost soFar: nat, weight: int, found: bool, message: string)
    returns (ret: nat, reason: seq<string>, ghost total: nat)
    requires before == Wrap32(soFar) && (reasons == [] <==> soFar == 0)
    ensures total == soFar + Counted(weight, found)
    ensures ret == Wrap32(total) && (reason == [] <==> total == 0)
  {
    ret, reason, total := before, reasons, soFar;
    if weight > 0 && found {
      reason := reason + [message];
      ret := Wrap32(ret + weight);
      WrapAdd(soFar, weight);
      total := total + weight;
    }
  }

  lemma {:induction false} WrapAdd(a: nat, b: nat)
    ensures Wrap32(Wrap32(a) + b) == Wrap32(a + b)
  {
    if a >= 0x1_0000_0000 {
      WrapAdd(a - 0x1_0000_0000, b);
    }
  }

  // ---------------------------------------------------------------- the decision

  datatype Level = Warn | Blocked | HighRisk | Low

  /** A call of logalert, or of logwhitelist. */
  datatype Record = Alert(level: Level) | Noted(level: Level)

  predicate IsLearning(m: Mode) {
    m.Learning? || m.Learning3Days? || m.Learning7Days?
  }

  datatype Decision = Decision(accepted: bool, learns: bool, records: seq<Record>)

  /** What check_query decides on a pattern that is not in the whitelist. */
  function Decide(mode: Mode, privileged: bool, risk: int, c: Config): Decision {
    if mode.AlwaysBlockNew? then Decision(false, false, [Alert(Blocked)])
    else if privileged then
      if mode.PrivilegeBlock? || mode.RiskBlock? then Decision(false, false, [Alert(Blocked)])
      else if IsLearning(mode) then Decision(true, true, [Noted(HighRisk)])
      else Decision(true, false, [Alert(HighRisk)])
    else if IsLearning(mode) then
      Decision(true, true, [Noted(if risk >= c.blockLevel then HighRisk else if risk >= c.warnLevel then Warn else Low)])
    else if risk >= c.blockLevel then
      if mode.RiskBlock? then Decision(false, false, [Alert(Blocked)]) else Decision(true, false, [Alert(HighRisk)])
    else if risk >= c.warnLevel then Decision(true, false, [Alert(Warn)])
    else Decision(true, false, [])
  }

  function DecideOnFlags(mode: Mode, privileged: bool, f: Flags, c: Config): Decision {
    Decide(mode, privileged, RiskOf(f, c), c)
  }

  /** The risk check_query compares with the levels. */
  function RiskOf(f: Flags, c: Config): int {
    AsInt(Wrap32(TotalRisk(f, c)))
  }

  /** The decision by what comes of it: when a query is refused and when it is learned, and what is
      recorded. */
  lemma DecisionTable(mode: Mode, privileged: bool, risk: int, c: Config)
    ensures var d := Decide(mode, privileged, risk, c);
            && (!d.accepted <==> || mode == AlwaysBlockNew
                                 || (privileged && mode in {PrivilegeBlock, RiskBlock})
                                 || (!privileged && mode == RiskBlock && risk >= c.blockLevel))
            && (d.learns <==> mode in {Learning, Learning3Days, Learning7Days})
            && d.records == (if !d.accepted then [Alert(Blocked)]
                             else if d.learns then
                               [Noted(if privileged || risk >= c.blockLevel then HighRisk
                                      else if risk >= c.warnLevel then Warn else Low)]
                             else if privileged || risk >= c.blockLevel then [Alert(HighRisk)]
                             else if risk >= c.warnLevel then [Alert(Warn)]
                             else [])
  {
  }

  function BlockedRecords(records: seq<Record>): nat {
    if records == [] then 0
    else (if records[0] == Alert(Blocked) then 1 else 0) + BlockedRecords(records[1..])
  }

  lemma {:induction false} BlockedRecordsAdd(a: seq<Record>, b: seq<Record>)
    ensures BlockedRecords(a + b) == BlockedRecords(a) + BlockedRecords(b)
  {
    if a == [] {
      assert a + b == b;
    } else {
      assert (a + b)[1..] == a[1..] + b;
      BlockedRecordsAdd(a[1..], b);
    }
  }

  /** A refusal comes with exactly one BLOCKED record, an acceptance with none. */
  lemma OneBlockedRecord(mode: Mode, privileged: bool, risk: int, c: Config)
    ensures var d := Decide(mode, privileged, risk, c);
            BlockedRecords(d.records) == if d.accepted then 0 else 1
  {
    var d := Decide(mode, privileged, risk, c);
    if d.records != [] {
      assert d.records[1..] == [];
    }
  }

  /** Everything found in f was found in g as well. */
  predicate Includes(f: Flags, g: Flags) {
    && (f.hasComment ==> g.hasComment) && (f.hasSTable ==> g.hasSTable)
    && (f.hasSeparator ==> g.hasSeparator) && (f.hasOr ==> g.hasOr)
    && (f.hasUnion ==> g.hasUnion) && (f.hasTautology ==> g.hasTautology)
    && (f.hasEmptyPwd ==> g.hasEmptyPwd) && (f.hasBruteforce ==> g.hasBruteforce)
  }

  lemma CountedGrows(weight: int, before: bool, after: bool)
    requires before ==> after
    ensures Counted(weight, before) <= Counted(weight, after)
    ensures IsInt32(weight) ==> Counted(weight, after) < 0x8000_0000
  {
  }

  lemma TotalGrows(f: Flags, g: Flags, c: Config)
    requires Includes(f, g)
    ensures TotalRisk(f, c) <= TotalRisk(g, c)
  {
    hide Counted;
    CountedGrows(c.sqlComments, f.hasComment, g.hasComment);
    CountedGrows(c.sTables, f.hasSTable, g.hasSTable);
    CountedGrows(c.multipleQueries, f.hasSeparator, g.hasSeparator);
    CountedGrows(c.orToken, f.hasOr, g.hasOr);
    CountedGrows(c.unionToken, f.hasUnion, g.hasUnion);
    CountedGrows(c.varCmpVar, f.hasTautology, g.hasTautology);
    CountedGrows(c.emptyPassword, f.hasEmptyPwd, g.hasEmptyPwd);
    CountedGrows(c.bruteforce, f.hasBruteforce, g.hasBruteforce);
  }

  lemma NoWrap(x: nat)
    requires x < 0x1_0000_0000
    ensures Wrap32(x) == x
  {
  }

  /** Finding more never turns a refusal into an acceptance, as long as the weights together fit an
      int. */
  lemma MoreRiskNoAcceptance(mode: Mode, privileged: bool, f: Flags, g: Flags, c: Config)
    requires Includes(f, g) && TotalRisk(ALL_FLAGS, c) < 0x8000_0000
    ensures !DecideOnFlags(mode, privileged, f, c).accepted ==> !DecideOnFlags(mode, privileged, g, c).accepted
  {
    hide Wrap32, TotalRisk;
    TotalGrows(f, g, c);
    TotalGrows(g, ALL_FLAGS, c);
    NoWrap(TotalRisk(f, c));
    NoWrap(TotalRisk(g, c));
  }

  ghost predicate Monotone(c: Config) {
    forall mode, privileged, f, g :: Includes(f, g) && !DecideOnFlags(mode, privileged, f, c).accepted ==>
      !DecideOnFlags(mode, privileged, g, c).accepted
  }

  /** f with the first n of the eight findings added. */
  function WithFirst(f: Flags, n: nat): (g: Flags)
    ensures Includes(f, g)
  {
    Flags(f.hasComment || n > 0, f.hasSTable || n > 1, f.hasSeparator || n > 2, f.hasOr || n > 3,
          f.hasUnion || n > 4, f.hasTautology || n > 5, f.hasEmptyPwd || n > 6, f.hasBruteforce || n > 7)
  }

  /** One finding adds less than 2^31. */
  lemma OneMore(f: Flags, c: Config, n: nat)
    requires ValidConfig(c) && n < 8
    ensures TotalRisk(WithFirst(f, n + 1), c) < TotalRisk(WithFirst(f, n), c) + 0x8000_0000
  {
    hide FirstRisks, LastRisks;
    if n < 4 {
      OneMoreOfFirst(f, c, n);
    } else {
      OneMoreOfLast(f, c, n);
    }
  }

  lemma OneMoreOfFirst(f: Flags, c: Config, n: nat)
    requires ValidConfig(c) && n < 4
    ensures FirstRisks(WithFirst(f, n + 1), c) < FirstRisks(WithFirst(f, n), c) + 0x8000_0000
    ensures LastRisks(WithFirst(f, n + 1), c) == LastRisks(WithFirst(f, n), c)
  {
    hide Counted;
    CountedGrows(c.sqlComments, f.hasComment, true);
    CountedGrows(c.sTables, f.hasSTable, true);
    CountedGrows(c.multipleQueries, f.hasSeparator, true);
    CountedGrows(c.orToken, f.hasOr, true);
  }

  lemma OneMoreOfLast(f: Flags, c: Config, n: nat)
    requires ValidConfig(c) && 4 <= n < 8
    ensures LastRisks(WithFirst(f, n + 1), c) < LastRisks(WithFirst(f, n), c) + 0x8000_0000
    ensures FirstRisks(WithFirst(f, n + 1), c) == FirstRisks(WithFirst(f, n), c)
  {
    hide Counted;
    CountedGrows(c.unionToken, f.hasUnion, true);
    CountedGrows(c.varCmpVar, f.hasTautology, true);
    CountedGrows(c.emptyPassword, f.hasEmptyPwd, true);
    CountedGrows(c.bruteforce, f.hasBruteforce, true);
  }

  /** Adding findings one at a time, the first total from b + 2^31 on is below b + 2^32. */
  lemma {:induction false} FirstOverflow(f: Flags, c: Config, b: nat, n: nat) returns (g: Flags)
    requires ValidConfig(c) && n <= 8
    requires TotalRisk(f, c) < b + 0x8000_0000 <= TotalRisk(WithFirst(f, n), c)
    ensures Includes(f, g) && b + 0x8000_0000 <= TotalRisk(g, c) < b + 0x1_0000_0000
    decreases n
  {
    hide TotalRisk, WithFirst;
    WithNone(f);
    g := WithFirst(f, n);
    if n > 0 {
      OneMore(f, c, n - 1);
      if TotalRisk(WithFirst(f, n - 1), c) >= b + 0x8000_0000 {
        g := FirstOverflow(f, c, b, n - 1);
      }
    }
  }

  lemma WithNone(f: Flags)
    ensures WithFirst(f, 0) == f
  {
  }

  /** How much of a total wrapping takes away. */
  function Wrapped(x: nat): (b: nat)
    ensures b <= x && x - b == Wrap32(x)
  {
    WrapLowers(x);
    x - Wrap32(x)
  }

  lemma {:induction false} WrapLowers(x: nat)
    ensures Wrap32(x) <= x
  {
    if x >= 0x1_0000_0000 {
      WrapLowers(x - 0x1_0000_0000);
    }
  }

  /** Totals less than 2^32 above a multiple of it lose the same by wrapping. */
  lemma {:induction false} WrappedAlike(a: nat, x: nat)
    requires a <= x < Wrapped(a) + 0x1_0000_0000
    ensures Wrapped(x) == Wrapped(a)
    decreases a
  {
    if a >= 0x1_0000_0000 {
      WrappedAlike(a - 0x1_0000_0000, x - 0x1_0000_0000);
    }
  }

  /** RiskBlock mode refuses what reaches the block level, wrapped and read as an int. */
  lemma RefusedByRisk(f: Flags, c: Config)
    requires ValidConfig(c) && c.blockLevel > 0
    ensures var w := Wrap32(TotalRisk(f, c));
            DecideOnFlags(RiskBlock, false, f, c).accepted <==> w < c.blockLevel || w >= 0x8000_0000
  {
    hide Wrap32, TotalRisk;
  }

  /** Is the wrapped total of all findings together still an int where that of f is? */
  predicate NoOverflowFrom(f: Flags, c: Config) {
    TotalRisk(ALL_FLAGS, c) < Wrapped(TotalRisk(f, c)) + 0x8000_0000
  }

  /** When finding more never helps: for a positive block level, exactly when no findings that are refused
      overflow on their way to all of them; for any other one, which refuses even queries in which nothing was
      found, exactly when it refuses whatever is found. */
  lemma MonotoneIff(c: Config)
    requires ValidConfig(c)
    ensures Monotone(c) <==>
              forall f :: if c.blockLevel > 0 then !DecideOnFlags(RiskBlock, false, f, c).accepted ==> NoOverflowFrom(f, c)
                          else !DecideOnFlags(RiskBlock, false, f, c).accepted
  {
    hide DecideOnFlags, NoOverflowFrom, Monotone;
    if c.blockLevel > 0 {
      MonotoneAbove(c);
    } else {
      MonotoneBelow(c);
    }
  }

  /** Finding nothing is included in every finding. */
  lemma MonotoneBelow(c: Config)
    requires c.blockLevel <= 0
    ensures Monotone(c) <==> forall f :: !DecideOnFlags(RiskBlock, false, f, c).accepted
  {
    hide Wrap32, DecideOnFlags;
    NothingRefused(c);
    if forall f :: !DecideOnFlags(RiskBlock, false, f, c).accepted {
      forall mode, privileged, f, g | Includes(f, g) && !DecideOnFlags(mode, privileged, f, c).accepted
        ensures !DecideOnFlags(mode, privileged, g, c).accepted
      {
        OtherModes(mode, privileged, f, g, c);
      }
    }
    forall f | DecideOnFlags(RiskBlock, false, f, c).accepted
      ensures !Monotone(c)
    {
      assert Includes(NO_FLAGS, f);
    }
  }

  lemma NothingRefused(c: Config)
    requires c.blockLevel <= 0
    ensures !DecideOnFlags(RiskBlock, false, NO_FLAGS, c).accepted
  {
    assert TotalRisk(NO_FLAGS, c) == 0;
    NoWrap(0);
  }

  lemma MonotoneAbove(c: Config)
    requires ValidConfig(c) && c.blockLevel > 0
    ensures Monotone(c) <==> forall f :: !DecideOnFlags(RiskBlock, false, f, c).accepted ==> NoOverflowFrom(f, c)
  {
    hide Wrap32, TotalRisk, DecideOnFlags, NoOverflowFrom, Wrapped, Includes;
    if forall f :: !DecideOnFlags(RiskBlock, false, f, c).accepted ==> NoOverflowFrom(f, c) {
      forall mode, privileged, f, g | Includes(f, g) && !DecideOnFlags(mode, privileged, f, c).accepted
        ensures !DecideOnFlags(mode, privileged, g, c).accepted
      {
        OtherModes(mode, privileged, f, g, c);
        if !DecideOnFlags(RiskBlock, false, f, c).accepted {
          StaysRefused(f, g, c);
        }
      }
    }
    forall f | !DecideOnFlags(RiskBlock, false, f, c).accepted && !NoOverflowFrom(f, c)
      ensures !Monotone(c)
    {
      Overflows(f, c);
    }
  }

  /** Only RiskBlock mode looks at the risk to refuse. */
  lemma OtherModes(mode: Mode, privileged: bool, f: Flags, g: Flags, c: Config)
    ensures (mode.RiskBlock? && !privileged)
         || DecideOnFlags(mode, privileged, f, c).accepted == DecideOnFlags(mode, privileged, g, c).accepted
  {
    hide Wrap32, TotalRisk;
  }

  lemma StaysRefused(f: Flags, g: Flags, c: Config)
    requires ValidConfig(c) && c.blockLevel > 0 && Includes(f, g) && NoOverflowFrom(f, c)
    requires !DecideOnFlags(RiskBlock, false, f, c).accepted
    ensures !DecideOnFlags(RiskBlock, false, g, c).accepted
  {
    hide Wrap32, TotalRisk, DecideOnFlags;
    TotalGrows(f, g, c);
    TotalGrows(g, ALL_FLAGS, c);
    WrappedAlike(TotalRisk(f, c), TotalRisk(g, c));
    RefusedByRisk(f, c);
    RefusedByRisk(g, c);
  }

  lemma Overflows(f: Flags, c: Config)
    requires ValidConfig(c) && c.blockLevel > 0 && !NoOverflowFrom(f, c)
    requires !DecideOnFlags(RiskBlock, false, f, c).accepted
    ensures !Monotone(c)
  {
    hide Wrap32, TotalRisk, DecideOnFlags;
    RefusedByRisk(f, c);
    assert WithFirst(f, 8) == ALL_FLAGS;
    var b := Wrapped(TotalRisk(f, c));
    var g := FirstOverflow(f, c, b, 8);
    WrappedAlike(TotalRisk(f, c), TotalRisk(g, c));
    RefusedByRisk(g, c);
  }

  /** In particular, where some findings are refused before their weights wrap: exactly when all weights
      together fit an int. */
  lemma MonotoneIffFits(c: Config, f: Flags)
    requires ValidConfig(c) && 0 < c.blockLevel <= TotalRisk(f, c) < 0x8000_0000
    ensures Monotone(c) <==> TotalRisk(ALL_FLAGS, c) < 0x8000_0000
  {
    hide Wrap32, TotalRisk, DecideOnFlags;
    NoWrap(TotalRisk(f, c));
    RefusedByRisk(f, c);
    MonotoneAbove(c);
    if TotalRisk(ALL_FLAGS, c) < 0x8000_0000 {
      forall g ensures NoOverflowFrom(g, c) {
      }
    } else {
      assert !NoOverflowFrom(f, c);
    }
  }

  /** An instance: weights that together reach 2^31 let two risks through together that are refused one
      at a time. */
  lemma OverflowingWeights(c: Config, f: Flags)
    requires ValidConfig(c) && 0 < c.blockLevel <= c.sqlComments
    requires c.sTables > 0 && c.sqlComments + c.sTables >= 0x8000_0000
    requires f == Flags(true, false, false, false, false, false, false, false)
    ensures !DecideOnFlags(RiskBlock, false, f, c).accepted
    ensures DecideOnFlags(RiskBlock, false, f.(hasSTable := true), c).accepted
  {
    hide Wrap32;
    assert TotalRisk(f, c) == c.sqlComments;
    assert TotalRisk(f.(hasSTable := true), c) == c.sqlComments + c.sTables;
    NoWrap(c.sqlComments);
    NoWrap(c.sqlComments + c.sTables);
    RefusedByRisk(f, c);
    RefusedByRisk(f.(hasSTable := true), c);
  }

  // ---------------------------------------------------------------- check_query

  function LowerCase(q: string): (r: string)
    ensures |r| == |q|
  {
    seq(|q|, i requires 0 <= i < |q| => Lower(q[i]))
  }

  /** The pattern of a query, as check_query makes it. */
  function PatternOfQuery(query: string): string {
    Normalise(LowerCase(query))
  }

  method StrLowercase(str: string) returns (r: string)
    ensures r == LowerCase(str)
  {
    r := str;
    var i := 0;
    while i < |r|
      invariant i <= |r| == |str|
      invariant forall k :: 0 <= k < i ==> r[k] == Lower(str[k])
      invariant forall k :: i <= k < |r| ==> r[k] == str[k]
    {
      r := r[i := Lower(r[i])];
      i := i + 1;
    }
  }

  /** What happens to a database's guard: a query, or the timer's reload. */
  datatype Event = Queried(query: string, blacklisted: bool, risk: Flags, stores: bool)
                 | Reloaded(mode: Mode, answers: bool)

  class Guard {
    const conf: Config
    const db: DBPermObj
    const storage: Storage
    var records: seq<Record>
    /** Patterns learned, and those of them that were learned before the last reload. */
    ghost var learned: set<string>
    ghost var known: set<string>

    constructor (conf: Config, db: DBPermObj, storage: Storage)
      requires ValidConfig(conf) && db.PositivePerms()
      ensures this.conf == conf && this.db == db && this.storage == storage
      ensures Valid() && learned == {} && known == {} && records == []
    {
      this.conf, this.db, this.storage := conf, db, storage;
      records, learned, known := [], {}, {};
    }

    /** Every learned pattern keeps an active row, and every known one is in the cache. */
    ghost predicate Valid()
      reads this, db, storage
    {
      && ValidConfig(conf)
      && (forall p :: p in learned ==> p != [] && HasActiveRow(storage.table, db.proxyId, db.dbName, p))
      && known <= learned && (forall p :: p in known ==> p in db.exceptions)
      && db.PositivePerms()
    }

    /** A pattern that learning makes acceptable: it stays what it is in an SQL literal, and the table
        does not hold it with inactive rows only. */
    predicate Learnable(table: seq<Row>, p: string) {
      && p != [] && Quotable(p)
      && (HasRow(table, db.proxyId, db.dbName, p) ==> HasActiveRow(table, db.proxyId, db.dbName, p))
    }

    /** The table once p has been learned: one new row, unless it holds p already. */
    function WithPattern(table: seq<Row>, p: string): seq<Row> {
      table + if HasRow(table, db.proxyId, db.dbName, p) then [] else [Row(db.proxyId, db.dbName, p, 1)]
    }

    /** `blacklisted` is what the pattern matching finds, `risk` what parsing finds, `stores` whether
        the storage answers. */
    method CheckQuery(query: string, blacklisted: bool, risk: Flags, stores: bool) returns (accepted: bool)
      requires Valid() && query != []
      modifies this`records, this`learned, storage
      ensures Valid()
      ensures var known := PatternOfQuery(query) in db.exceptions;
              var mode := db.blockStatus;
              var total := RiskOf(risk, conf);
              && (!accepted <==> !known
                                 && (|| mode == AlwaysBlockNew
                                     || (blacklisted && mode in {PrivilegeBlock, RiskBlock})
                                     || (!blacklisted && mode == RiskBlock && total >= conf.blockLevel)))
              && records == old(records) +
                   (if known then []
                    else if !accepted then [Alert(Blocked)]
                    else if mode in {Learning, Learning3Days, Learning7Days} then
                      [Noted(if blacklisted || total >= conf.blockLevel then HighRisk
                             else if total >= conf.warnLevel then Warn else Low)]
                    else if blacklisted || total >= conf.blockLevel then [Alert(HighRisk)]
                    else if total >= conf.warnLevel then [Alert(Warn)]
                    else [])
      ensures BlockedRecords(records) == BlockedRecords(old(records)) + if accepted then 0 else 1
      ensures old(learned) <= learned && old(storage.table) <= storage.table
      ensures var p := PatternOfQuery(query);
              if p in db.exceptions || db.blockStatus !in {Learning, Learning3Days, Learning7Days} then
                storage.table == old(storage.table)
              else stores && Quotable(p) ==> storage.table == old(WithPattern(storage.table, p))
      ensures var p := PatternOfQuery(query);
              p !in db.exceptions && IsLearning(db.blockStatus) && stores && Learnable(old(storage.table), p) ==>
                p in learned
    {
      hide Normalise, Wrap32, TotalRisk, BlockedRecords, Decide;
      var pattern := StrLowercase(query);
      pattern := NormalizeQuery(pattern);
      var inWhitelist := db.CheckWhitelist(pattern);
      if inWhitelist != 0 {
        assert old(records) + [] == records;
        return true;
      }
      var ret, reason := CalculateRisk(risk, conf);
      var d := Decide(db.blockStatus, blacklisted, AsInt(ret), conf);
      accepted := Judge(pattern, blacklisted, AsInt(ret), stores);
      DecisionTable(db.blockStatus, blacklisted, AsInt(ret), conf);
      BlockedRecordsAdd(old(records), d.records);
      OneBlockedRecord(db.blockStatus, blacklisted, AsInt(ret), conf);
    }

    /** check_query once the risk is known. */
    method Judge(pattern: string, privileged: bool, risk: int, stores: bool) returns (accepted: bool)
      requires Valid()
      modifies this`records, this`learned, storage
      ensures Valid()
      ensures accepted == Decide(db.blockStatus, privileged, risk, conf).accepted
      ensures records == old(records) + Decide(db.blockStatus, privileged, risk, conf).records
      ensures !Decide(db.blockStatus, privileged, risk, conf).learns ==>
                storage.table == old(storage.table) && learned == old(learned)
      ensures Decide(db.blockStatus, privileged, risk, conf).learns && stores && Quotable(pattern) ==>
                storage.table == old(WithPattern(storage.table, pattern))
      ensures old(learned) <= learned && old(storage.table) <= storage.table
      ensures IsLearning(db.blockStatus) && stores && Learnable(old(storage.table), pattern) ==> pattern in learned
    {
      var blockStatus := db.blockStatus;
      if blockStatus.AlwaysBlockNew? {
        records := records + [Alert(Blocked)];
        return false;
      }
      if privileged {
        if blockStatus.PrivilegeBlock? || blockStatus.RiskBlock? {
          records := records + [Alert(Blocked)];
          return false;
        } else if blockStatus.Learning? || blockStatus.Learning3Days? || blockStatus.Learning7Days? {
          Learn(pattern, stores);
          records := records + [Noted(HighRisk)];
          return true;
        } else {
          records := records + [Alert(HighRisk)];
          return true;
        }
      }
      if blockStatus.Learning? || blockStatus.Learning3Days? || blockStatus.Learning7Days? {
        Learn(pattern, stores);
        if risk >= conf.blockLevel {
          records := records + [Noted(HighRisk)];
        } else if risk >= conf.warnLevel {
          records := records + [Noted(Warn)];
        } else {
          records := records + [Noted(Low)];
        }
        return true;
      }
      var riskBlockLevel := HighRisk;
      if blockStatus.RiskBlock? {
        riskBlockLevel := Blocked;
      }
      if risk >= conf.blockLevel {
        records := records + [Alert(riskBlockLevel)];
        if riskBlockLevel == Blocked {
          return false;
        }
      } else if risk >= conf.warnLevel {
        records := records + [Alert(Warn)];
      }
      return true;
    }

    method Learn(pattern: string, stores: bool)
      requires Valid()
      modifies this`learned, storage
      ensures Valid() && old(learned) <= learned && old(storage.table) <= storage.table
      ensures stores && Quotable(pattern) ==> storage.table == old(WithPattern(storage.table, pattern))
      ensures stores && Learnable(old(storage.table), pattern) ==> pattern in learned
    {
      var ok := db.AddToWhitelist(storage, pattern, stores);
      forall p | p in learned ensures HasActiveRow(storage.table, db.proxyId, db.dbName, p) {
        RowsStay(old(storage.table), storage.table, db.proxyId, db.dbName, p);
      }
      if ok && pattern != [] && HasActiveRow(storage.table, db.proxyId, db.dbName, pattern) {
        learned := learned + {pattern};
      }
    }

    /** dbmap_reload for this database: the mode may change, and the cache is read again. */
    method Reload(mode: Mode, answers: bool)
      requires Valid()
      modifies this`known, db
      ensures Valid() && db.blockStatus == mode
      ensures if answers then known == learned && db.Mirrors(storage.table) else known == old(known)
      ensures old(known) <= known
    {
      db.blockStatus := mode;
      var ok := db.LoadWhitelist(storage, answers);
      if ok {
        known := learned;
      }
    }

    /** Learning a pattern and reloading puts it into the cache exactly when the table did not hold it with
        inactive rows only. */
    method LearnAndReload(pattern: string, mode: Mode)
      requires Valid() && pattern != [] && Quotable(pattern)
      modifies this`learned, this`known, storage, db
      ensures Valid() && (pattern in db.exceptions <==> old(Learnable(storage.table, pattern)))
    {
      ghost var before := storage.table;
      Learn(pattern, true);
      if HasRow(before, db.proxyId, db.dbName, pattern) {
        assert storage.table == before;
      } else {
        assert storage.table[|before|] == Row(db.proxyId, db.dbName, pattern, 1);
      }
      Reload(mode, true);
    }

    /** Any run of queries and reloads: nothing that was learned or known is lost. */
    method Run(events: seq<Event>)
      requires Valid()
      modifies this`records, this`learned, this`known, storage, db
      ensures Valid() && old(learned) <= learned && old(known) <= known
    {
      hide Valid;
      for i := 0 to |events|
        invariant Valid() && old(learned) <= learned && old(known) <= known
      {
        match events[i]
        case Queried(query, blacklisted, risk, stores) =>
          if query != [] {
            var accepted := CheckQuery(query, blacklisted, risk, stores);
          }
        case Reloaded(mode, answers) =>
          Reload(mode, answers);
      }
    }

    /** Learned means accepted: once a pattern has been learned, after any further events, a reload and
        any events after that, a query with that pattern is accepted without a record, whatever the mode
        and whatever is found in it. */
    method LearnedMeansAccepted(query: string, before: seq<Event>, mode: Mode, after: seq<Event>,
                                blacklisted: bool, risk: Flags, stores: bool)
      returns (accepted: bool, ghost recordsBefore: seq<Record>)
      requires Valid() && query != [] && PatternOfQuery(query) in learned
      modifies this`records, this`learned, this`known, storage, db
      ensures Valid() && accepted && records == recordsBefore
    {
      hide Normalise;
      Run(before);
      Reload(mode, true);
      Run(after);
      recordsBefore := records;
      accepted := CheckQuery(query, blacklisted, risk, stores);
    }

    /** So one query learned once lets every query with the same pattern through. */
    method LearnOneAcceptAll(query1: string, query2: string, blacklisted1: bool, risk1: Flags,
                             before: seq<Event>, mode: Mode, after: seq<Event>,
                             blacklisted2: bool, risk2: Flags, stores: bool)
      returns (accepted: bool, ghost recordsBefore: seq<Record>)
      requires Valid() && query1 != [] && query2 != []
      modifies this`records, this`learned, this`known, storage, db
      ensures Valid()
      ensures var p := PatternOfQuery(query1);
              PatternOfQuery(query2) == p
              && old(IsLearning(db.blockStatus) && p !in db.exceptions && Learnable(storage.table, p)) ==>
                accepted && records == recordsBefore
    {
      hide PatternOfQuery, Learnable;
      var first := CheckQuery(query1, blacklisted1, risk1, true);
      Run(before);
      Reload(mode, true);
      Run(after);
      recordsBefore := records;
      accepted := CheckQuery(query2, blacklisted2, risk2, stores);
    }
  }

  // ---------------------------------------------------------------- what one learned query covers

  /** Capitals do not count: with a small letter in the place of a capital the pattern is the same. */
  lemma CaseIgnored(query: string, i: nat, letter: nat)
    requires i < |query| && letter < 26 && query[i] == "ABCDEFGHIJKLMNOPQRSTUVWXYZ"[letter]
    ensures PatternOfQuery(query[i := "abcdefghijklmnopqrstuvwxyz"[letter]]) == PatternOfQuery(query)
  {
    LowerIs(query[i]);
    LowerOfSmall(letter);
    assert LowerCase(query[i := "abcdefghijklmnopqrstuvwxyz"[letter]]) == LowerCase(query);
  }

  lemma LowerOfSmall(letter: nat)
    requires letter < 26
    ensures var c := "abcdefghijklmnopqrstuvwxyz"[letter]; Lower(c) == c
  {
  }

  function LowerItem(it: Item): Item {
    match it
    case Plain(c) => Plain(Lower(c))
    case Escaped(c) => Escaped(Lower(c))
    case Doubled => Doubled
  }

  function LowerBody(body: seq<Item>): (r: seq<Item>)
    ensures |r| == |body|
    ensures forall i :: 0 <= i < |body| ==> r[i] == LowerItem(body[i])
  {
    seq(|body|, i requires 0 <= i < |body| => LowerItem(body[i]))
  }

  function LowerBodies(bodies: seq<seq<Item>>): (r: seq<seq<Item>>)
    ensures |r| == |bodies|
    ensures forall i :: 0 <= i < |bodies| ==> r[i] == LowerBody(bodies[i])
  {
    seq(|bodies|, i requires 0 <= i < |bodies| => LowerBody(bodies[i]))
  }

  function LowerSkeleton(k: Skeleton): (r: Skeleton)
    ensures Slots(r) == Slots(k)
  {
    match k
    case End(code) => End(LowerCase(code))
    case Slot(code, d, rest) => Slot(LowerCase(code), d, LowerSkeleton(rest))
  }

  lemma LowerConcat(a: string, b: string)
    ensures LowerCase(a + b) == LowerCase(a) + LowerCase(b)
  {
  }

  lemma {:induction false} LowerBodyText(body: seq<Item>, d: char)
    requires IsQuote(d) && ValidBody(body, d)
    ensures LowerCase(BodyText(body, d)) == BodyText(LowerBody(body), d)
    ensures ValidBody(LowerBody(body), d)
  {
    if body != [] {
      LowerBodyText(body[1..], d);
      LowerConcat(ItemText(body[0], d), BodyText(body[1..], d));
      assert LowerBody(body)[1..] == LowerBody(body[1..]);
      assert LowerCase(ItemText(body[0], d)) == ItemText(LowerItem(body[0]), d);
    }
  }

  lemma {:induction false} LowerCode(code: string, escaped: bool)
    ensures QuoteClean(LowerCase(code), escaped) <==> QuoteClean(code, escaped)
    ensures EndsEscaped(LowerCase(code), escaped) <==> EndsEscaped(code, escaped)
    decreases |code|
  {
    if code != [] {
      assert LowerCase(code)[1..] == LowerCase(code[1..]);
      LowerCode(code[1..], !escaped && code[0] == '\\');
    }
  }

  lemma {:induction false} LowerRender(k: Skeleton, bodies: seq<seq<Item>>)
    requires ValidSkeleton(k) && ValidBodies(k, bodies)
    ensures ValidSkeleton(LowerSkeleton(k)) && ValidBodies(LowerSkeleton(k), LowerBodies(bodies))
    ensures LowerCase(Render(k, bodies)) == Render(LowerSkeleton(k), LowerBodies(bodies))
    decreases k
  {
    LowerCode(k.code, false);
    if k.Slot? {
      var tail := Render(k.rest, bodies[1..]);
      var q := Quoted(bodies[0], k.delim);
      LowerRender(k.rest, bodies[1..]);
      assert LowerBodies(bodies)[1..] == LowerBodies(bodies[1..]);
      LowerQuoted(bodies[0], k.delim);
      LowerConcat(k.code, q + tail);
      LowerConcat(q, tail);
    }
  }

  lemma LowerQuoted(body: seq<Item>, d: char)
    requires IsQuote(d) && ValidBody(body, d)
    ensures LowerCase(Quoted(body, d)) == Quoted(LowerBody(body), d)
    ensures ValidBody(LowerBody(body), d)
  {
    LowerBodyText(body, d);
    LowerConcat([d], BodyText(body, d) + [d]);
    LowerConcat(BodyText(body, d), [d]);
  }

  /** Learning one query covers every query that differs from it only in what its literals hold. */
  lemma {:induction false} OnePatternForAllLiterals(k: Skeleton, b1: seq<seq<Item>>, b2: seq<seq<Item>>)
    requires ValidSkeleton(k) && ValidBodies(k, b1) && ValidBodies(k, b2)
    ensures PatternOfQuery(Render(k, b1)) == PatternOfQuery(Render(k, b2))
  {
    LowerRender(k, b1);
    LowerRender(k, b2);
    LiteralAbstraction(LowerSkeleton(k), LowerBodies(b1), LowerBodies(b2));
  }

  /** A pattern can be learned as it is exactly when it has no backslash and the comment passes left no
      opening quote behind. */
  lemma QuotableIff(query: string)
    ensures Quotable(PatternOfQuery(query)) <==>
            '\\' !in PatternOfQuery(query) && QuoteClean(Skimmed(LowerCase(query)), false)
  {
    if '\\' !in PatternOfQuery(query) {
      PatternIsQuotable(LowerCase(query));
    }
  }

  lemma NoCapitals(q: string)
    requires forall i :: 0 <= i < |q| ==> !('A' <= q[i] <= 'Z')
    ensures LowerCase(q) == q
  {
  }

  /** A pattern without a backslash that cannot. */
  lemma QuoteReachesTable()
    ensures PatternOfQuery("/*a/b\\'c") == "/*'c" && !Quotable("/*'c")
  {
    hide Normalise;
    NoCapitals("/*a/b\\'c");
    QuoteLeftByComment();
    assert "/*'c"[2] in "/*'c";
  }
}
