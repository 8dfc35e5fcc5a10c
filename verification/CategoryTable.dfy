/** The exchange of rules for all categories at once: deps/zlog/src/category_table.c. */
module CategoryTable {
  import opened Options
  import opened RuleLevels
  import opened Categories

  /** Every category in the order the table is gone through, and the names, which do not change. */
  ghost predicate AllSettled(states: seq<State>, names: seq<string>, rules: seq<Rule>) {
    |states| == |names| && forall i :: 0 <= i < |states| ==> Settled(states[i], rules, names[i])
  }

  /** The first n have been updated; where the update failed, the last of these is the one that failed. */
  ghost predicate TableUpdated(before: seq<State>, after: seq<State>, names: seq<string>, rules: seq<Rule>, rc: int,
      n: nat) {
    && |before| == |after| == |names| && n <= |before| && rc in {0, -1}
    && (forall i :: 0 <= i < n ==>
          Updated(before[i], after[i], rules, names[i], if rc != 0 && i == n - 1 then -1 else 0))
    && (forall i :: n <= i < |before| ==> after[i] == before[i])
    && if rc == 0 then n == |before| else n > 0
  }

  function AllRolledBack(states: seq<State>): seq<State> {
    seq(|states|, i requires 0 <= i < |states| => RolledBack(states[i]))
  }

  function AllCommitted(states: seq<State>): seq<State> {
    seq(|states|, i requires 0 <= i < |states| => Committed(states[i]))
  }

  /** An update of the table that succeeds, or fails anywhere on the way, is undone by a rollback of the table: every
      category has its rules and its bitmap back, and is as before in all that follows. */
  lemma RollbackUndoes(before: seq<State>, after: seq<State>, names: seq<string>, old_: seq<Rule>, new_: seq<Rule>,
      rc: int, n: nat)
    requires AllSettled(before, names, old_) && TableUpdated(before, after, names, new_, rc, n)
    ensures var s := AllRolledBack(after);
      && AllSettled(s, names, old_)
      && forall i :: 0 <= i < |before| ==> s[i].fit == before[i].fit && s[i].bitmap == before[i].bitmap
  {
    forall i | 0 <= i < |before|
      ensures Settled(RolledBack(after[i]), old_, names[i]) && RolledBack(after[i]).fit == before[i].fit
              && RolledBack(after[i]).bitmap == before[i].bitmap
    {
      assert Settled(before[i], old_, names[i]);
      if i < n {
        SettledAgain(before[i], after[i], old_, new_, names[i], if rc != 0 && i == n - 1 then -1 else 0);
      }
    }
  }

  /** After an update that succeeds and its commit, every category has the new rules. */
  lemma CommitKeeps(before: seq<State>, after: seq<State>, names: seq<string>, old_: seq<Rule>, new_: seq<Rule>, n: nat)
    requires AllSettled(before, names, old_) && TableUpdated(before, after, names, new_, 0, n)
    ensures AllSettled(AllCommitted(after), names, new_)
  {
    forall i | 0 <= i < |before| ensures Settled(Committed(after[i]), new_, names[i]) {
      SettledAgain(before[i], after[i], old_, new_, names[i], 0);
    }
  }

  /** An update can fail at any category of any table, whatever the rules: memory may run out there. */
  lemma {:induction false} FailureHappens(before: seq<State>, names: seq<string>, new_: seq<Rule>, n: nat)
    returns (after: seq<State>)
    requires |before| == |names| && 0 < n <= |before| && forall r :: r in new_ ==> Made(r)
    ensures TableUpdated(before, after, names, new_, -1, n)
  {
    after := before[n - 1 := State(None, CLEAR, before[n - 1].fit, before[n - 1].bitmap)];
    var i := n - 1;
    while i > 0
      invariant 0 <= i < n && |after| == |before|
      invariant forall j :: i <= j < n ==>
                  Updated(before[j], after[j], new_, names[j], if j == n - 1 then -1 else 0)
      invariant forall j :: 0 <= j < |before| && (j < i || n <= j) ==> after[j] == before[j]
    {
      i := i - 1;
      FitAreMade(new_, names[i]);
      var b := SomeBitmap(FitRules(new_, names[i]));
      after := after[i := State(Some(FitRules(new_, names[i])), b, before[i].fit, before[i].bitmap)];
    }
  }

  /** There are settled tables, of any number of categories. */
  lemma {:induction false} SettledExists(names: seq<string>, rules: seq<Rule>) returns (states: seq<State>)
    requires forall r :: r in rules ==> Made(r)
    ensures AllSettled(states, names, rules)
    decreases |names|
  {
    if names == [] {
      states := [];
    } else {
      var k := |names| - 1;
      var init := SettledExists(names[..k], rules);
      FitAreMade(rules, names[k]);
      var b := SomeBitmap(FitRules(rules, names[k]));
      states := init + [State(Some(FitRules(rules, names[k])), b, None, CLEAR)];
    }
  }

  /** So zlog_reload, which does not roll back after a failed update, can leave any table without what it had: settled
      with neither the old nor the new rules. */
  lemma {:induction false} ReloadBreaks(names: seq<string>, old_: seq<Rule>, new_: seq<Rule>, n: nat)
    returns (before: seq<State>, after: seq<State>)
    requires 0 < n <= |names| && (forall r :: r in old_ ==> Made(r)) && forall r :: r in new_ ==> Made(r)
    ensures AllSettled(before, names, old_) && TableUpdated(before, after, names, new_, -1, n)
    ensures !AllSettled(after, names, old_) && !AllSettled(after, names, new_)
  {
    before := SettledExists(names, old_);
    after := FailureHappens(before, names, new_, n);
    FailureLeaves(before, after, names, old_, new_, n);
  }

  /** Without the rollback a failed update leaves a category without rules. */
  lemma FailureLeaves(before: seq<State>, after: seq<State>, names: seq<string>, old_: seq<Rule>, new_: seq<Rule>,
      n: nat)
    requires AllSettled(before, names, old_) && TableUpdated(before, after, names, new_, -1, n)
    ensures after[n - 1].fit == None && !AllSettled(after, names, old_) && !AllSettled(after, names, new_)
  {
  }

  class Table {
    var categories: seq<Category>

    ghost predicate Valid()
      reads this
    {
      forall i, j :: 0 <= i < j < |categories| ==> categories[i] != categories[j]
    }

    ghost function States(): seq<State>
      reads this, categories
    {
      var cs := categories;
      seq(|cs|, i requires 0 <= i < |cs| reads cs => cs[i].Now())
    }

    ghost function Names(): seq<string>
      reads this
    {
      var cs := categories;
      seq(|cs|, i requires 0 <= i < |cs| => cs[i].name)
    }

    constructor ()
      ensures Valid() && categories == []
    {
      categories := [];
    }

    /** zlog_category_table_update_rules: stops at the first category that fails. */
    method UpdateRules(rules: seq<Rule>) returns (rc: int, ghost n: nat)
      requires Valid() && forall r :: r in rules ==> Made(r)
      modifies categories
      ensures TableUpdated(old(States()), States(), Names(), rules, rc, n)
    {
      ghost var before := States();
      rc := 0;
      var i := 0;
      while i < |categories|
        invariant 0 <= i <= |categories| && rc == 0
        invariant forall j :: 0 <= j < i ==> Updated(before[j], categories[j].Now(), rules, categories[j].name, 0)
        invariant forall j :: i <= j < |categories| ==> categories[j].Now() == before[j]
      {
        rc := categories[i].UpdateRules(rules);
        i := i + 1;
        if rc != 0 {
          return rc, i;
        }
      }
      n := i;
    }

    /** zlog_category_table_commit_rules. */
    method CommitRules()
      requires Valid()
      modifies categories
      ensures States() == AllCommitted(old(States()))
    {
      ghost var before := States();
      var i := 0;
      while i < |categories|
        invariant 0 <= i <= |categories|
        invariant forall j :: 0 <= j < |categories| ==>
                    categories[j].Now() == if j < i then Committed(before[j]) else before[j]
      {
        categories[i].CommitRules();
        i := i + 1;
      }
    }

    /** zlog_category_table_rollback_rules. */
    method RollbackRules()
      requires Valid()
      modifies categories
      ensures States() == AllRolledBack(old(States()))
    {
      ghost var before := States();
      var i := 0;
      while i < |categories|
        invariant 0 <= i <= |categories|
        invariant forall j :: 0 <= j < |categories| ==>
                    categories[j].Now() == if j < i then RolledBack(before[j]) else before[j]
      {
        categories[i].RollbackRules();
        i := i + 1;
      }
    }

    /** zlog_category_table_fetch_category: the category of a name, made with the current rules if there is none. */
    method Fetch(name: string, rules: seq<Rule>) returns (c: Category?)
      requires Valid() && AllSettled(States(), Names(), rules) && forall r :: r in rules ==> Made(r)
      modifies this
      ensures Valid() && AllSettled(States(), Names(), rules)
      ensures if c == null then categories == old(categories) && name !in Names()
              else c.name == name && c in categories
                   && categories == old(categories) + if name in old(Names()) then [] else [c]
    {
      c := Find(name);
      if c != null {
        assert categories == categories + [];
        return;
      }
      c := new Category(name);
      ghost var before := States();
      var rc := c.ObtainRules(rules);
      if rc != 0 {
        return null;
      }
      categories := categories + [c];
      forall i | 0 <= i < |categories| ensures Settled(States()[i], rules, Names()[i]) {
        assert i < |before| ==> States()[i] == before[i];
      }
    }

    method Find(name: string) returns (c: Category?)
      ensures if c == null then name !in Names() else c in categories && c.name == name && name in Names()
    {
      var i := 0;
      while i < |categories|
        invariant 0 <= i <= |categories| && forall j :: 0 <= j < i ==> categories[j].name != name
      {
        if categories[i].name == name {
          assert Names()[i] == name;
          return categories[i];
        }
        i := i + 1;
      }
      c := null;
    }
  }
}
