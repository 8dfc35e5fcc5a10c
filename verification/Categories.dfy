/** A category of zlog: the rules that fit it, the bitmap that spares it looking at them, and their exchange for new
    rules: deps/zlog/src/category.c. */
module Categories {
  import opened Options
  import opened RuleLevels

  datatype Rule = Rule(category: string, compare: Compare, level: int, bitmap: Bitmap)

  /** What zlog_rule_new makes. */
  ghost predicate Made(r: Rule) {
    r.category != "" && -1 <= r.level < LEVELS && Shows(r.bitmap, r.compare, r.level)
  }

  // ----- which rules fit a category -----

  function Cut(s: string, n: nat): string {
    if n <= |s| then s[..n] else s
  }

  /** zlog_rule_match_category. */
  function Matches(pattern: string, name: string): bool
    requires pattern != ""
  {
    if pattern == "*" || pattern == name then true
    else
      var len := |pattern|;
      if pattern[len - 1] == '_' then
        var n := if |name| == len - 1 then len - 1 else len;
        Cut(pattern, n) == Cut(name, n)
      else false
  }

  /** "aa_" matches "aa" and every name that begins with "aa_", and nothing else. */
  lemma MatchesIff(pattern: string, name: string)
    requires pattern != ""
    ensures Matches(pattern, name) <==>
              pattern == "*" || pattern == name
              || (pattern[|pattern| - 1] == '_' && (pattern == name + "_" || pattern <= name))
  {
    var len := |pattern|;
    if pattern[len - 1] == '_' {
      assert pattern == pattern[..len - 1] + "_";
    }
  }

  predicate Fits(r: Rule, name: string) {
    r.category != "" && Matches(r.category, name)
  }

  /** The rules that match, in their order. */
  function Matching(rules: seq<Rule>, name: string): seq<Rule> {
    if rules == [] then []
    else
      var init, last := rules[..|rules| - 1], rules[|rules| - 1];
      Matching(init, name) + (if Fits(last, name) then [last] else [])
  }

  /** The last rule for what no other rule takes. */
  function Wastebin(rules: seq<Rule>): Option<Rule> {
    if rules == [] then None
    else if rules[|rules| - 1].category == "!" then Some(rules[|rules| - 1]) else Wastebin(rules[..|rules| - 1])
  }

  function FitRules(rules: seq<Rule>, name: string): seq<Rule> {
    if Matching(rules, name) != [] then Matching(rules, name)
    else if Wastebin(rules) == None then [] else [Wastebin(rules).value]
  }

  lemma MatchingOn(rules: seq<Rule>, i: nat, name: string)
    requires i < |rules| && Made(rules[i])
    ensures Matching(rules[..i + 1], name)
              == if Matches(rules[i].category, name) then Matching(rules[..i], name) + [rules[i]]
                 else Matching(rules[..i], name)
    ensures Wastebin(rules[..i + 1]) == if rules[i].category == "!" then Some(rules[i]) else Wastebin(rules[..i])
  {
    assert rules[..i + 1][..i] == rules[..i] && rules[..i + 1][i] == rules[i];
    assert Matching(rules[..i], name) + [] == Matching(rules[..i], name);
  }

  lemma {:induction false} FitIff(rules: seq<Rule>, name: string, r: Rule)
    ensures r in Matching(rules, name) <==> r in rules && Fits(r, name)
    ensures Wastebin(rules) == Some(r) ==> r in rules && r.category == "!"
  {
    if rules != [] {
      FitIff(rules[..|rules| - 1], name, r);
      assert r in rules <==> r in rules[..|rules| - 1] || r == rules[|rules| - 1];
    }
  }

  /** The rules that match are in the order of all rules: what matches of a list is what matches of its parts, one after
      the other. */
  lemma {:induction false} MatchingParts(a: seq<Rule>, b: seq<Rule>, name: string)
    ensures Matching(a + b, name) == Matching(a, name) + Matching(b, name)
    ensures |b| == 1 ==> Matching(b, name) == if Fits(b[0], name) then b else []
    decreases |b|
  {
    if b == [] {
      assert a + b == a;
    } else {
      var n := |b| - 1;
      assert (a + b)[..|a + b| - 1] == a + b[..n];
      MatchingParts(a, b[..n], name);
      assert n == 0 ==> b == [b[0]];
    }
  }

  /** A "!" rule after which there is no other. */
  predicate IsTheWastebin(rules: seq<Rule>, i: nat)
    requires i < |rules|
  {
    rules[i].category == "!" && forall j :: i < j < |rules| ==> rules[j].category != "!"
  }

  /** When no rule matches, the "!" rule after which there is no other is taken. */
  lemma {:induction false} WastebinIs(rules: seq<Rule>, name: string, i: nat)
    requires i < |rules| && IsTheWastebin(rules, i)
    requires forall r :: r in rules ==> !Fits(r, name)
    ensures FitRules(rules, name) == [rules[i]]
  {
    LastWastebin(rules, i);
    NoneMatch(rules, name);
  }

  lemma {:induction false} LastWastebin(rules: seq<Rule>, i: nat)
    requires i < |rules| && IsTheWastebin(rules, i)
    ensures Wastebin(rules) == Some(rules[i])
  {
    if i < |rules| - 1 {
      LastWastebin(rules[..|rules| - 1], i);
    }
  }

  lemma {:induction false} NoneMatch(rules: seq<Rule>, name: string)
    requires forall r :: r in rules ==> !Fits(r, name)
    ensures Matching(rules, name) == []
  {
    if rules != [] {
      NoneMatch(rules[..|rules| - 1], name);
    }
  }

  /** Without one, none is; and when some rule matches, it is those that match. */
  lemma {:induction false} FitRulesIs(rules: seq<Rule>, name: string)
    ensures (exists r :: r in rules && Fits(r, name)) ==> FitRules(rules, name) == Matching(rules, name)
    ensures (forall r :: r in rules ==> !Fits(r, name) && r.category != "!") ==> FitRules(rules, name) == []
  {
    if r :| r in rules && Fits(r, name) {
      FitIff(rules, name, r);
    } else {
      NoneMatch(rules, name);
      if Wastebin(rules).Some? {
        FitIff(rules, name, Wastebin(rules).value);
      }
    }
  }

  // ----- the bitmap -----

  predicate SomeOutputs(fit: seq<Rule>, l: int) {
    exists r :: r in fit && Outputs(r.compare, r.level, l)
  }

  /** A level's bit is set exactly when some rule outputs at the level. */
  ghost predicate Agrees(b: Bitmap, fit: seq<Rule>) {
    |b| == BYTES && forall l :: 0 <= l < LEVELS ==> (BitOf(b, l) <==> SomeOutputs(fit, l))
  }

  /** What zlog_category_output hands an event of a level to. */
  function Outputting(fit: seq<Rule>, l: int): seq<Rule> {
    if fit == [] then []
    else
      var init, last := fit[..|fit| - 1], fit[|fit| - 1];
      Outputting(init, l) + (if Outputs(last.compare, last.level, l) then [last] else [])
  }

  lemma {:induction false} OutputtingIff(fit: seq<Rule>, l: int)
    ensures Outputting(fit, l) != [] <==> SomeOutputs(fit, l)
  {
    if fit != [] {
      var init, last := fit[..|fit| - 1], fit[|fit| - 1];
      OutputtingIff(init, l);
      if SomeOutputs(fit, l) {
        var r :| r in fit && Outputs(r.compare, r.level, l);
        assert r in init || r == last;
      }
      if SomeOutputs(init, l) {
        var r :| r in init && Outputs(r.compare, r.level, l);
        assert r in fit;
      }
      if Outputs(last.compare, last.level, l) {
        assert last in fit;
      }
    }
  }

  /** An event is handed to the rules that output at its level in their order. */
  lemma {:induction false} OutputtingParts(a: seq<Rule>, b: seq<Rule>, l: int)
    ensures Outputting(a + b, l) == Outputting(a, l) + Outputting(b, l)
    ensures |b| == 1 ==> Outputting(b, l) == if Outputs(b[0].compare, b[0].level, l) then b else []
    decreases |b|
  {
    if b == [] {
      assert a + b == a;
    } else {
      var n := |b| - 1;
      assert (a + b)[..|a + b| - 1] == a + b[..n];
      OutputtingParts(a, b[..n], l);
      assert n == 0 ==> b == [b[0]];
    }
  }

  /** Rule by rule: an event of level l is handed to a rule of '.' if and only if the rule's level is not above l. */
  lemma {:induction false} HandedIff(fit: seq<Rule>, l: int, r: Rule)
    ensures r in Outputting(fit, l) <==>
              r in fit && match r.compare
                          case Any => true
                          case AtLeast => r.level <= l
                          case Equal => r.level == l
                          case Differs => r.level != l
  {
    if fit != [] {
      HandedIff(fit[..|fit| - 1], l, r);
      assert r in fit <==> r in fit[..|fit| - 1] || r == fit[|fit| - 1];
    }
  }

  lemma AgreesOn(b: Bitmap, b': Bitmap, fit: seq<Rule>, r: Rule)
    requires Agrees(b, fit) && Made(r) && |b'| == BYTES
    requires forall i :: 0 <= i < BYTES ==> b'[i] == b[i] | r.bitmap[i]
    ensures Agrees(b', fit + [r])
  {
    forall l | 0 <= l < LEVELS ensures BitOf(b', l) <==> SomeOutputs(fit + [r], l) {
      EitherBit(b[l / 8], r.bitmap[l / 8], l % 8);
      assert BitOf(b', l) <==> BitOf(b, l) || BitOf(r.bitmap, l);
      if SomeOutputs(fit, l) {
        var q :| q in fit && Outputs(q.compare, q.level, l);
        assert q in fit + [r];
      }
      if SomeOutputs(fit + [r], l) {
        var q :| q in fit + [r] && Outputs(q.compare, q.level, l);
        assert q in fit || q == r;
      }
      assert r in fit + [r];
    }
  }

  lemma NoRules()
    ensures Agrees(Filled(0, BYTES), [])
  {
    forall l | 0 <= l < LEVELS ensures !BitOf(Filled(0, BYTES), l) {
      EachBit(0, l % 8);
    }
  }

  /** zlog_cateogry_overlap_bitmap. */
  method Overlap(b: Bitmap, r: Rule, ghost fit: seq<Rule>) returns (b': Bitmap)
    requires Agrees(b, fit) && Made(r)
    ensures Agrees(b', fit + [r])
  {
    b' := b;
    var i := 0;
    while i < BYTES
      invariant 0 <= i <= BYTES == |b'|
      invariant forall j :: 0 <= j < BYTES ==> b'[j] == if j < i then b[j] | r.bitmap[j] else b[j]
    {
      b' := b'[i := b'[i] | r.bitmap[i]];
      i := i + 1;
    }
    AgreesOn(b, b', fit, r);
  }

  // ----- a category -----

  /** The fields that an exchange of rules changes. */
  datatype State = State(fit: Option<seq<Rule>>, bitmap: Bitmap, fitBackup: Option<seq<Rule>>, bitmapBackup: Bitmap)

  /** No exchange is under way, and the rules and the bitmap are those that these rules give. */
  ghost predicate Settled(s: State, rules: seq<Rule>, name: string) {
    s.fit == Some(FitRules(rules, name)) && Agrees(s.bitmap, s.fit.value) && s.fitBackup == None
  }

  /** What zlog_category_update_rules leaves, when it succeeds and when it fails. */
  ghost predicate Updated(s: State, s': State, rules: seq<Rule>, name: string, rc: int) {
    && s'.fitBackup == s.fit && s'.bitmapBackup == s.bitmap && rc in {0, -1}
    && if rc == 0 then s'.fit == Some(FitRules(rules, name)) && Agrees(s'.bitmap, s'.fit.value) else s'.fit == None
  }

  const CLEAR := Filled(0, BYTES)

  /** zlog_category_rollback_rules. */
  function RolledBack(s: State): State {
    if s.fitBackup == None then s else State(s.fitBackup, s.bitmapBackup, None, CLEAR)
  }

  /** zlog_category_commit_rules. */
  function Committed(s: State): State {
    if s.fitBackup == None then s else s.(fitBackup := None, bitmapBackup := CLEAR)
  }

  /** Rolling back brings the rules and the bitmap back, whether the update succeeded or failed, if and only if there
      were rules before; a failed update of a category without any has left it without. */
  lemma RollbackRestores(s: State, s': State, rules: seq<Rule>, name: string, rc: int)
    requires Updated(s, s', rules, name, rc)
    ensures s.fit != None ==> RolledBack(s') == State(s.fit, s.bitmap, None, CLEAR)
    ensures RolledBack(s').fit == s.fit <==> s.fit != None || rc != 0
  {
  }

  /** After a committed update the category has the new rules; after a rollback, the old. */
  lemma SettledAgain(s: State, s': State, old_: seq<Rule>, new_: seq<Rule>, name: string, rc: int)
    requires Settled(s, old_, name) && Updated(s, s', new_, name, rc)
    ensures Settled(RolledBack(s'), old_, name)
    ensures rc == 0 ==> Settled(Committed(s'), new_, name)
  {
  }

  class Category {
    const name: string
    var fitRules: Option<seq<Rule>>
    var bitmap: Bitmap
    var fitBackup: Option<seq<Rule>>
    var bitmapBackup: Bitmap

    ghost function Now(): State
      reads this
    {
      State(fitRules, bitmap, fitBackup, bitmapBackup)
    }

    constructor (name: string)
      ensures this.name == name && Now() == State(None, CLEAR, None, CLEAR)
    {
      this.name := name;
      fitRules, bitmap, fitBackup, bitmapBackup := None, CLEAR, None, CLEAR;
    }

    /** A rule goes to the list, unless memory runs out, and into the bitmap. */
    method AddRule(r: Rule) returns (rc: int)
      requires Made(r) && fitRules.Some? && Agrees(bitmap, fitRules.value)
      modifies this`fitRules, this`bitmap
      ensures rc in {0, -1}
      ensures rc == 0 ==> fitRules == Some(old(fitRules).value + [r]) && Agrees(bitmap, fitRules.value)
    {
      if * {
        return -1;
      }
      bitmap := Overlap(bitmap, r, fitRules.value);
      fitRules := Some(fitRules.value + [r]);
      rc := 0;
    }

    /** zlog_category_obtain_rules. */
    method ObtainRules(rules: seq<Rule>) returns (rc: int)
      requires forall r :: r in rules ==> Made(r)
      modifies this`fitRules, this`bitmap
      ensures rc in {0, -1}
      ensures if rc == 0 then fitRules == Some(FitRules(rules, name)) && Agrees(bitmap, fitRules.value)
              else fitRules == None
      ensures rc == 0 ==>
                forall i ::
                  0 <= i < |rules| && IsTheWastebin(rules, i) && (forall r :: r in rules ==> !Fits(r, name)) ==>
                    fitRules == Some([rules[i]])
    {
      fitRules, bitmap := None, CLEAR;
      if * {
        return -1;
      }
      fitRules := Some([]);
      NoRules();
      var wastebin: Option<Rule> := None;
      var i, count := 0, 0;
      while i < |rules|
        invariant 0 <= i <= |rules| && fitRules == Some(Matching(rules[..i], name)) && Agrees(bitmap, fitRules.value)
        invariant count == |fitRules.value| && wastebin == Wastebin(rules[..i])
      {
        var r := rules[i];
        MatchingOn(rules, i, name);
        if Matches(r.category, name) {
          rc := AddRule(r);
          if rc != 0 {
            fitRules := None;
            return;
          }
          count := count + 1;
        }
        if r.category == "!" {
          wastebin := Some(r);
        }
        i := i + 1;
      }
      assert rules[..i] == rules;
      rc := TakeWastebin(rules, wastebin, count);
      forall i | 0 <= i < |rules| && IsTheWastebin(rules, i) && (forall r :: r in rules ==> !Fits(r, name))
        ensures FitRules(rules, name) == [rules[i]]
      {
        WastebinIs(rules, name, i);
      }
    }

    method TakeWastebin(rules: seq<Rule>, wastebin: Option<Rule>, count: nat) returns (rc: int)
      requires (forall r :: r in rules ==> Made(r)) && wastebin == Wastebin(rules)
      requires fitRules == Some(Matching(rules, name)) && Agrees(bitmap, fitRules.value) && count == |fitRules.value|
      modifies this`fitRules, this`bitmap
      ensures rc in {0, -1}
      ensures if rc == 0 then fitRules == Some(FitRules(rules, name)) && Agrees(bitmap, fitRules.value)
              else fitRules == None
    {
      rc := 0;
      if count == 0 && wastebin.Some? {
        FitIff(rules, name, wastebin.value);
        assert fitRules.value + [wastebin.value] == [wastebin.value];
        rc := AddRule(wastebin.value);
        if rc != 0 {
          fitRules := None;
        }
      }
    }

    /** zlog_category_update_rules. */
    method UpdateRules(rules: seq<Rule>) returns (rc: int)
      requires forall r :: r in rules ==> Made(r)
      modifies this
      ensures Updated(old(Now()), Now(), rules, name, rc)
    {
      fitBackup, fitRules, bitmapBackup := fitRules, None, bitmap;
      rc := ObtainRules(rules);
    }

    /** zlog_category_commit_rules. */
    method CommitRules()
      modifies this
      ensures Now() == Committed(old(Now()))
    {
      if fitBackup == None {
        return;
      }
      fitBackup, bitmapBackup := None, CLEAR;
    }

    /** zlog_category_rollback_rules. */
    method RollbackRules()
      modifies this
      ensures Now() == RolledBack(old(Now()))
    {
      if fitBackup == None {
        return;
      }
      fitRules, fitBackup := fitBackup, None;
      bitmap, bitmapBackup := bitmapBackup, CLEAR;
    }

    /** zlog_category_output: the rules that an event of the level is handed to. */
    method Output(l: int) returns (taken: seq<Rule>)
      requires fitRules.Some? && 0 <= l < LEVELS
      ensures taken == Outputting(fitRules.value, l)
    {
      var fit := fitRules.value;
      taken := [];
      var i := 0;
      while i < |fit|
        invariant 0 <= i <= |fit| && taken == Outputting(fit[..i], l)
      {
        assert fit[..i + 1][..i] == fit[..i];
        if Outputs(fit[i].compare, fit[i].level, l) {
          taken := taken + [fit[i]];
        }
        i := i + 1;
      }
      assert fit[..i] == fit;
    }

    /** vzlog: the bitmap first, and the rules only if it says so. With a bitmap that agrees with the rules, an event is
        handed to the same rules as without it. */
    method Log(l: int) returns (taken: seq<Rule>)
      requires fitRules.Some? && |bitmap| == BYTES && 0 <= l < LEVELS
      ensures taken == if BitOf(bitmap, l) then Outputting(fitRules.value, l) else []
      ensures Agrees(bitmap, fitRules.value) ==> taken == Outputting(fitRules.value, l)
    {
      OutputtingIff(fitRules.value, l);
      if !BitOf(bitmap, l) {
        return [];
      }
      taken := Output(l);
    }

    /** zlog_level_switch: the bitmap alone is changed. Events are then handed to the same rules as without a bitmap if
        and only if no rule outputs below the level. */
    method LevelSwitch(level: int)
      requires 0 <= level < LEVELS
      modifies this`bitmap
      ensures |bitmap| == BYTES && forall l :: 0 <= l < LEVELS ==> (BitOf(bitmap, l) <==> l >= level)
      ensures fitRules.Some? ==>
                ((forall l :: 0 <= l < LEVELS ==> SameTaken(bitmap, fitRules.value, l)) <==>
                 forall l :: 0 <= l < level ==> !SomeOutputs(fitRules.value, l))
    {
      bitmap := FromLevel(level);
      if fitRules.Some? {
        Switched(bitmap, fitRules.value, level);
      }
    }
  }

  ghost predicate SameTaken(b: Bitmap, fit: seq<Rule>, l: int)
    requires |b| == BYTES && 0 <= l < LEVELS
  {
    Outputting(fit, l) == if BitOf(b, l) then Outputting(fit, l) else []
  }

  lemma Switched(b: Bitmap, fit: seq<Rule>, level: int)
    requires 0 <= level < LEVELS && |b| == BYTES && forall l :: 0 <= l < LEVELS ==> (BitOf(b, l) <==> l >= level)
    ensures (forall l :: 0 <= l < LEVELS ==> SameTaken(b, fit, l)) <==>
              forall l :: 0 <= l < level ==> !SomeOutputs(fit, l)
  {
    forall l | 0 <= l < LEVELS ensures SameTaken(b, fit, l) <==> l >= level || !SomeOutputs(fit, l) {
      OutputtingIff(fit, l);
    }
  }

  /** An event below the level at which a rule outputs is lost. */
  lemma SwitchLoses(b: Bitmap, fit: seq<Rule>, level: int, l: int)
    requires 0 <= l < level < LEVELS && |b| == BYTES && (BitOf(b, l) <==> l >= level) && SomeOutputs(fit, l)
    ensures Outputting(fit, l) != [] && !SameTaken(b, fit, l)
  {
    OutputtingIff(fit, l);
  }

  /** A rule that outputs at every level. */
  const EVERYTHING := Rule("*", Any, -1, Filled(0xFF, BYTES))

  /** For instance with that rule, at level 0 after a switch to level 1. */
  lemma {:induction false} LostEvent(b: Bitmap)
    requires |b| == BYTES && forall l :: 0 <= l < LEVELS ==> (BitOf(b, l) <==> l >= 1)
    ensures Made(EVERYTHING) && Agrees(EVERYTHING.bitmap, [EVERYTHING])
    ensures Outputting([EVERYTHING], 0) != [] && !SameTaken(b, [EVERYTHING], 0)
  {
    OneShows(-1, EVERYTHING.bitmap);
    assert EVERYTHING in [EVERYTHING];
    assert !BitOf(b, 0);
    SwitchLoses(b, [EVERYTHING], 1, 0);
  }

  lemma {:induction false} SomeBitmap(fit: seq<Rule>) returns (b: Bitmap)
    requires forall r :: r in fit ==> Made(r)
    ensures Agrees(b, fit)
  {
    if fit == [] {
      NoRules();
      b := CLEAR;
    } else {
      var init, last := fit[..|fit| - 1], fit[|fit| - 1];
      var b0 := SomeBitmap(init);
      assert last in fit;
      b := seq(BYTES, i requires 0 <= i < BYTES => b0[i] | last.bitmap[i]);
      AgreesOn(b0, b, init, last);
      assert init + [last] == fit;
    }
  }

  lemma FitAreMade(rules: seq<Rule>, name: string)
    requires forall r :: r in rules ==> Made(r)
    ensures forall r :: r in FitRules(rules, name) ==> Made(r)
  {
    forall r | r in FitRules(rules, name) ensures Made(r) {
      FitIff(rules, name, r);
    }
  }
}
