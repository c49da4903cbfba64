/**
 * CodeManagerSettings, clean-code part: the three rule arrays, the
 * CleanCodeRules dictionary (rule ID -> rule) that UpdateRules rebuilds
 * from them, the counter that hands out IDs to new rules, and the
 * settingsReady queue of listeners waiting for the dictionary to exist.
 */
module Settings {
  import opened Common
  import opened CleanCode

  /** An action handed to AddReadyListener; what it does when run is outside the model. */
  datatype ReadyAction = ReadyAction(name: string)

  /** The listeners a possibly-null action adds to an event (`+= null` adds none). */
  function Listeners(a: Option<ReadyAction>): seq<ReadyAction> {
    if a.Some? then [a.value] else []
  }

  // ------------------------------------------------------------ the rules as one list

  function Unwanteds(s: seq<UnwantedCode>): (r: seq<CleanCodeRule>)
    ensures |r| == |s| && forall i :: 0 <= i < |s| ==> r[i] == Unwanted(s[i])
  {
    seq(|s|, i requires 0 <= i < |s| => Unwanted(s[i]))
  }

  function Guidelines(s: seq<CodeGuideline>): (r: seq<CleanCodeRule>)
    ensures |r| == |s| && forall i :: 0 <= i < |s| ==> r[i] == Guideline(s[i])
  {
    seq(|s|, i requires 0 <= i < |s| => Guideline(s[i]))
  }

  function Documentations(s: seq<CodeDocumentation>): (r: seq<CleanCodeRule>)
    ensures |r| == |s| && forall i :: 0 <= i < |s| ==> r[i] == Documentation(s[i])
  {
    seq(|s|, i requires 0 <= i < |s| => Documentation(s[i]))
  }

  // ------------------------------------------------------------ what UpdateRules computes

  /**
   * What the loops of UpdateRules carry from one rule to the next: the rules
   * handled so far (as stored back, with their IDs), the ID counter, the
   * dictionary, and whether Dictionary.Add has thrown (after which the
   * remaining rules are left as they are).
   */
  datatype Registration = Registration(rules: seq<CleanCodeRule>, counter: nat,
                                       table: map<nat, CleanCodeRule>, failed: bool)

  /** One loop turn: a rule with ID 0 gets `++rulesIDCounter`, then AddICleanCodeRule. */
  function Register(st: Registration, rule: CleanCodeRule): Registration {
    if st.failed then st.(rules := st.rules + [rule])
    else
      var isNew := rule.GetID() == 0;
      var counter := if isNew then st.counter + 1 else st.counter;
      var numbered := if isNew then rule.SetID(counter) else rule;
      if !numbered.IsValid() then Registration(st.rules + [numbered], counter, st.table, false)
      else if numbered.GetID() in st.table then Registration(st.rules + [numbered], counter, st.table, true)
      else Registration(st.rules + [numbered], counter, st.table[numbered.GetID() := numbered], false)
  }

  /** The rules handled in order from an empty dictionary and the given counter. */
  function RegisterAll(rules: seq<CleanCodeRule>, counter: nat): (st: Registration)
    ensures |st.rules| == |rules|
    decreases |rules|
  {
    if rules == [] then Registration([], counter, map[], false)
    else Register(RegisterAll(rules[..|rules| - 1], counter), rules[|rules| - 1])
  }

  /** The number of rules still without an ID (ID 0). */
  function NewRuleCount(rules: seq<CleanCodeRule>): nat
    decreases |rules|
  {
    if rules == [] then 0
    else NewRuleCount(rules[..|rules| - 1]) + (if rules[|rules| - 1].GetID() == 0 then 1 else 0)
  }

  /** No two valid rules share an ID. */
  predicate DistinctValidIDs(rs: seq<CleanCodeRule>) {
    forall i, j :: 0 <= i < j < |rs| && rs[i].IsValid() && rs[j].IsValid() ==> rs[i].GetID() != rs[j].GetID()
  }

  // ------------------------------------------------------------ properties of the registration

  lemma RegisterAllNext(rules: seq<CleanCodeRule>, k: nat, counter: nat)
    requires k < |rules|
    ensures RegisterAll(rules[..k + 1], counter) == Register(RegisterAll(rules[..k], counter), rules[k])
  {
    assert rules[..k + 1][..k] == rules[..k];
  }

  /** Once Add has thrown, the rules after it are kept as they are and nothing else moves. */
  lemma {:induction false} RegisterAllFrozen(rules: seq<CleanCodeRule>, k: nat, counter: nat)
    requires k <= |rules| && RegisterAll(rules[..k], counter).failed
    ensures RegisterAll(rules, counter) == RegisterAll(rules[..k], counter).(rules := RegisterAll(rules[..k], counter).rules + rules[k..])
    decreases |rules|
  {
    if k == |rules| {
      assert rules[..k] == rules;
    } else {
      var init := rules[..|rules| - 1];
      assert init[..k] == rules[..k];
      RegisterAllFrozen(init, k, counter);
      assert init[k..] + [rules[|rules| - 1]] == rules[k..];
    }
  }

  /** What one Register step does to the rule list and the throw flag. */
  lemma RegisterFacts(st: Registration, rule: CleanCodeRule)
    ensures var st' := Register(st, rule);
      |st'.rules| == |st.rules| + 1 && st'.rules == st.rules + [st'.rules[|st.rules|]] &&
      st'.rules[|st.rules|] == rule.SetID(st'.rules[|st.rules|].GetID()) &&
      (rule.GetID() != 0 ==> st'.rules[|st.rules|] == rule) &&
      (st.failed ==> st'.failed) &&
      (!st.failed ==> (st'.failed <==> st'.rules[|st.rules|].IsValid() && st'.rules[|st.rules|].GetID() in st.table))
  {
    KeepOwnID(rule);
  }

  /** UpdateRules changes rules only in their IDs, and never the ID of a rule that already had one. */
  lemma {:induction false} RegisterAllChangesOnlyIDs(rules: seq<CleanCodeRule>, counter: nat)
    ensures forall i :: 0 <= i < |rules| ==> RegisterAll(rules, counter).rules[i] == rules[i].SetID(RegisterAll(rules, counter).rules[i].GetID())
    ensures forall i :: 0 <= i < |rules| && rules[i].GetID() != 0 ==> RegisterAll(rules, counter).rules[i] == rules[i]
    decreases |rules|
  {
    if rules != [] {
      var init := rules[..|rules| - 1];
      var st := RegisterAll(init, counter);
      RegisterAllChangesOnlyIDs(init, counter);
      RegisterFacts(st, rules[|rules| - 1]);
      var st' := RegisterAll(rules, counter);
      forall i | 0 <= i < |rules|
        ensures st'.rules[i] == rules[i].SetID(st'.rules[i].GetID())
        ensures rules[i].GetID() != 0 ==> st'.rules[i] == rules[i]
      {
        if i < |init| {
          assert st'.rules[i] == st.rules[i] && rules[i] == init[i];
        }
      }
    }
  }

  lemma KeepOwnID(rule: CleanCodeRule)
    ensures rule.SetID(rule.GetID()) == rule
  {
    match rule
    case Unwanted(u) => assert u.SetID(u.ID) == u;
    case Guideline(g) => assert g.SetID(g.ID) == g;
    case Documentation(d) => assert d.SetID(d.ID) == d;
  }

  /**
   * Without a throw, the counter advances once per rule that had no ID, and
   * the n-th such rule (counting from 0) receives the old counter + n + 1.
   */
  lemma {:induction false} RegisterAllNumbers(rules: seq<CleanCodeRule>, counter: nat)
    ensures !RegisterAll(rules, counter).failed ==> RegisterAll(rules, counter).counter == counter + NewRuleCount(rules)
    ensures !RegisterAll(rules, counter).failed ==>
              forall i :: 0 <= i < |rules| && rules[i].GetID() == 0 ==>
                RegisterAll(rules, counter).rules[i].GetID() == counter + NewRuleCount(rules[..i]) + 1
    decreases |rules|
  {
    if rules != [] && !RegisterAll(rules, counter).failed {
      var init := rules[..|rules| - 1];
      RegisterAllNumbers(init, counter);
      forall i | 0 <= i < |rules| - 1
        ensures RegisterAll(rules, counter).rules[i] == RegisterAll(init, counter).rules[i]
        ensures rules[..i] == init[..i]
      {
      }
      assert rules[..|rules| - 1] == init;
    }
  }

  lemma {:induction false} NewRuleCountGrows(rules: seq<CleanCodeRule>, i: nat, j: nat)
    requires i < j <= |rules| && rules[i].GetID() == 0
    ensures NewRuleCount(rules[..i]) < NewRuleCount(rules[..j])
    decreases j
  {
    assert rules[..i + 1][..i] == rules[..i];
    if j > i + 1 {
      NewRuleCountGrows(rules, i, j - 1);
      assert rules[..j][..j - 1] == rules[..j - 1];
    }
  }

  /** New IDs are issued above the old counter, up to the new one, in processing order (unwanted codes, guidelines, documentations). */
  lemma NewIDsAscend(rules: seq<CleanCodeRule>, counter: nat, i: nat, j: nat)
    requires i < j < |rules| && rules[i].GetID() == 0 && rules[j].GetID() == 0
    requires !RegisterAll(rules, counter).failed
    ensures counter < RegisterAll(rules, counter).rules[i].GetID() < RegisterAll(rules, counter).rules[j].GetID()
    ensures RegisterAll(rules, counter).rules[j].GetID() <= RegisterAll(rules, counter).counter
  {
    RegisterAllNumbers(rules, counter);
    NewRuleCountGrows(rules, i, j);
    NewRuleCountGrows(rules, j, |rules|);
    assert rules[..|rules|] == rules;
  }

  /**
   * The dictionary holds only valid rules, each under its own ID and taken
   * from the rule list; without a throw it holds every valid rule.
   */
  lemma {:induction false} RegisterAllTable(rules: seq<CleanCodeRule>, counter: nat)
    ensures var st := RegisterAll(rules, counter);
      forall k :: k in st.table ==> st.table[k].IsValid() && st.table[k].GetID() == k && st.table[k] in st.rules
    ensures var st := RegisterAll(rules, counter);
      !st.failed ==> forall i :: 0 <= i < |st.rules| && st.rules[i].IsValid() ==>
        st.rules[i].GetID() in st.table && st.table[st.rules[i].GetID()] == st.rules[i]
    decreases |rules|
  {
    if rules != [] {
      var init := rules[..|rules| - 1];
      RegisterAllTable(init, counter);
    }
  }

  /** UpdateRules throws exactly when two valid rules end up with the same ID. */
  lemma {:induction false} ThrowsIffSharedID(rules: seq<CleanCodeRule>, counter: nat)
    ensures RegisterAll(rules, counter).failed <==> !DistinctValidIDs(RegisterAll(rules, counter).rules)
    decreases |rules|
  {
    if rules != [] {
      var init := rules[..|rules| - 1];
      var st := RegisterAll(init, counter);
      ThrowsIffSharedID(init, counter);
      RegisterAllTable(init, counter);
      RegisterFacts(st, rules[|rules| - 1]);
      var st' := RegisterAll(rules, counter);
      var x := st'.rules[|st.rules|];
      if st.failed {
        ClashStays(st.rules, x);
      } else if st'.failed {
        ClashFound(st.rules, x, st.table);
      } else {
        NoClash(st.rules, x, st.table);
      }
    }
  }

  lemma ClashStays(rs: seq<CleanCodeRule>, x: CleanCodeRule)
    requires !DistinctValidIDs(rs)
    ensures !DistinctValidIDs(rs + [x])
  {
    var i, j :| 0 <= i < j < |rs| && rs[i].IsValid() && rs[j].IsValid() && rs[i].GetID() == rs[j].GetID();
    assert (rs + [x])[i] == rs[i] && (rs + [x])[j] == rs[j];
  }

  lemma ClashFound(rs: seq<CleanCodeRule>, x: CleanCodeRule, table: map<nat, CleanCodeRule>)
    requires forall k :: k in table ==> table[k].IsValid() && table[k].GetID() == k && table[k] in rs
    requires x.IsValid() && x.GetID() in table
    ensures !DistinctValidIDs(rs + [x])
  {
    var i :| 0 <= i < |rs| && rs[i] == table[x.GetID()];
    assert (rs + [x])[i] == rs[i] && (rs + [x])[|rs|] == x;
  }

  lemma NoClash(rs: seq<CleanCodeRule>, x: CleanCodeRule, table: map<nat, CleanCodeRule>)
    requires DistinctValidIDs(rs)
    requires forall i :: 0 <= i < |rs| && rs[i].IsValid() ==> rs[i].GetID() in table
    requires x.IsValid() ==> x.GetID() !in table
    ensures DistinctValidIDs(rs + [x])
  {
    var rs' := rs + [x];
    forall i, j | 0 <= i < j < |rs'| && rs'[i].IsValid() && rs'[j].IsValid()
      ensures rs'[i].GetID() != rs'[j].GetID()
    {
      assert rs'[i] == rs[i];
      if j < |rs| {
        assert rs'[j] == rs[j];
      }
    }
  }

  // ------------------------------------------------------------ the restarted counter

  /**
   * rulesIDCounter is a private field, which Unity does not serialise, so a
   * reloaded settings asset starts it at 0 again while the rules keep the
   * IDs they were saved with. A rule added afterwards (ID 0) is then given
   * ID 1, which a saved valid rule may already hold, and Dictionary.Add throws.
   */
  lemma RestartedCounterReissuesStoredID()
    ensures RegisterAll([Unwanted(UnwantedCode("Debug", 0, "", 1)), Unwanted(UnwantedCode("Find", 1, "", 0))], 0).failed
  {
    var rules := [Unwanted(UnwantedCode("Debug", 0, "", 1)), Unwanted(UnwantedCode("Find", 1, "", 0))];
    assert rules[..1] == [rules[0]] && [rules[0]][..0] == [];
  }

  /** The largest ID any rule holds. */
  function MaxID(rules: seq<CleanCodeRule>): (m: nat)
    ensures forall i :: 0 <= i < |rules| ==> rules[i].GetID() <= m
    decreases |rules|
  {
    if rules == [] then 0
    else
      var m := MaxID(rules[..|rules| - 1]);
      var id := rules[|rules| - 1].GetID();
      if m < id then id else m
  }

  /** No two valid rules share an ID they already had (ID 0 means none yet). */
  predicate StoredIDsDistinct(rs: seq<CleanCodeRule>) {
    forall i, j :: 0 <= i < j < |rs| && rs[i].IsValid() && rs[j].IsValid() && rs[i].GetID() != 0 ==>
      rs[i].GetID() != rs[j].GetID()
  }

  /**
   * With the counter resumed at or above every stored ID, a new ID is never
   * one already held: the keys in the dictionary are stored IDs of the valid
   * rules seen so far or new IDs above the starting counter.
   */
  lemma {:induction false} ResumedRegistration(rules: seq<CleanCodeRule>, counter: nat)
    requires StoredIDsDistinct(rules) && MaxID(rules) <= counter
    ensures var st := RegisterAll(rules, counter);
      !st.failed && counter <= st.counter &&
      forall k :: k in st.table ==>
        (counter < k <= st.counter) || (exists i :: 0 <= i < |rules| && rules[i].GetID() == k && k != 0 && rules[i].IsValid())
    decreases |rules|
  {
    if rules != [] {
      var n := |rules| - 1;
      var init := rules[..n];
      assert StoredIDsDistinct(init) by {
        forall i, j | 0 <= i < j < |init| && init[i].IsValid() && init[j].IsValid() && init[i].GetID() != 0
          ensures init[i].GetID() != init[j].GetID()
        {
          assert init[i] == rules[i] && init[j] == rules[j];
        }
      }
      ResumedRegistration(init, counter);
      var st := RegisterAll(init, counter);
      var last := rules[n];
      if last.GetID() != 0 && last.IsValid() {
        forall i | 0 <= i < |init| && init[i].IsValid() ensures init[i].GetID() != last.GetID() {
          assert init[i] == rules[i] && last == rules[n];
        }
        assert last.GetID() <= counter;
        assert last.GetID() !in st.table;
      }
      forall k | k in RegisterAll(rules, counter).table
        ensures (counter < k <= RegisterAll(rules, counter).counter) ||
                (exists i :: 0 <= i < |rules| && rules[i].GetID() == k && k != 0 && rules[i].IsValid())
      {
        if k in st.table && !(counter < k <= st.counter) {
          var i :| 0 <= i < |init| && init[i].GetID() == k && k != 0 && init[i].IsValid();
          assert rules[i] == init[i];
        } else if k !in st.table && last.GetID() != 0 {
          assert rules[n].GetID() == k;
        }
      }
    }
  }

  /** The corrected counter never reissues a stored ID, so the rebuild cannot throw unless the stored IDs already clash. */
  lemma ResumedCounterNeverThrows(rules: seq<CleanCodeRule>, counter: nat)
    requires StoredIDsDistinct(rules) && MaxID(rules) <= counter
    ensures !RegisterAll(rules, counter).failed
  {
    ResumedRegistration(rules, counter);
  }

  // ------------------------------------------------------------ the settings object

  class CodeManagerSettings {
    var UnwantedCodes: array?<UnwantedCode>
    var CodeGuidelines: array?<CodeGuideline>
    var CodeDocumentations: array?<CodeDocumentation>
    /** The rule dictionary by ID; None until OnEnable creates it. */
    var CleanCodeRules: Option<map<nat, CleanCodeRule>>
    var rulesIDCounter: nat
    /** The settingsReady event: listeners queued while the dictionary is missing, in subscription order. */
    var settingsReady: seq<ReadyAction>
    /** The listeners run so far, in the order they ran. */
    var invoked: seq<ReadyAction>
    /** Every listener handed to AddReadyListener, in order. */
    ghost var subscribed: seq<ReadyAction>

    /**
     * Every listener handed in is run or still queued, exactly once; before
     * the dictionary exists none has run and the queue holds them all in order.
     */
    ghost predicate ListenersAccounted()
      reads this`invoked, this`settingsReady, this`subscribed, this`CleanCodeRules
    {
      multiset(invoked) + multiset(settingsReady) == multiset(subscribed) &&
      (CleanCodeRules.None? ==> invoked == [] && settingsReady == subscribed)
    }

    predicate ArraysSet()
      reads this`UnwantedCodes, this`CodeGuidelines, this`CodeDocumentations
    {
      UnwantedCodes != null && CodeGuidelines != null && CodeDocumentations != null
    }

    /** The rules in the order UpdateRules visits them. */
    function AllRules(): seq<CleanCodeRule>
      requires ArraysSet()
      reads this`UnwantedCodes, this`CodeGuidelines, this`CodeDocumentations, UnwantedCodes, CodeGuidelines, CodeDocumentations
    {
      Unwanteds(UnwantedCodes[..]) + Guidelines(CodeGuidelines[..]) + Documentations(CodeDocumentations[..])
    }

    /** The asset as loaded: the saved rule arrays, no dictionary, the counter at its initial 0. */
    constructor(unwanted: array?<UnwantedCode>, guidelines: array?<CodeGuideline>, documentations: array?<CodeDocumentation>)
      ensures UnwantedCodes == unwanted && CodeGuidelines == guidelines && CodeDocumentations == documentations
      ensures CleanCodeRules == None && rulesIDCounter == 0
      ensures settingsReady == [] && invoked == [] && subscribed == []
      ensures ListenersAccounted()
    {
      UnwantedCodes := unwanted;
      CodeGuidelines := guidelines;
      CodeDocumentations := documentations;
      CleanCodeRules := None;
      rulesIDCounter := 0;
      settingsReady := [];
      invoked := [];
      subscribed := [];
    }

    /** AddReadyListener: run the action now if the dictionary exists, otherwise queue it. */
    method AddReadyListener(onReadyAction: Option<ReadyAction>)
      requires ListenersAccounted()
      modifies this`settingsReady, this`invoked, this`subscribed
      ensures ListenersAccounted()
      ensures subscribed == old(subscribed) + Listeners(onReadyAction)
      ensures CleanCodeRules.None? ==> settingsReady == old(settingsReady) + Listeners(onReadyAction) && invoked == old(invoked)
      ensures CleanCodeRules.Some? ==> invoked == old(invoked) + Listeners(onReadyAction) && settingsReady == old(settingsReady)
    {
      subscribed := subscribed + Listeners(onReadyAction);
      if CleanCodeRules.None? {
        settingsReady := settingsReady + Listeners(onReadyAction);
      } else {
        invoked := invoked + Listeners(onReadyAction);
      }
    }

    /** AddICleanCodeRule: a valid rule is added under its ID; Dictionary.Add throws on a present key. */
    method AddICleanCodeRule(rule: CleanCodeRule) returns (r: Outcome<()>)
      modifies this`CleanCodeRules
      ensures !rule.IsValid() ==> r.Return? && CleanCodeRules == old(CleanCodeRules)
      ensures rule.IsValid() && old(CleanCodeRules).None? ==> r == Throw(NullReference) && CleanCodeRules == None
      ensures rule.IsValid() && old(CleanCodeRules).Some? ==>
        if rule.GetID() in old(CleanCodeRules).value then r == Throw(DuplicateKey) && CleanCodeRules == old(CleanCodeRules)
        else r.Return? && CleanCodeRules == Some(old(CleanCodeRules).value[rule.GetID() := rule])
    {
      r := Return(());
      if rule.IsValid() {
        if CleanCodeRules.None? {
          r := Throw(NullReference);
        } else if rule.GetID() in CleanCodeRules.value {
          r := Throw(DuplicateKey);
        } else {
          CleanCodeRules := Some(CleanCodeRules.value[rule.GetID() := rule]);
        }
      }
    }

    /** The state after the first k rules of `all` were handled without a throw. */
    ghost predicate RegisteredUpTo(all: seq<CleanCodeRule>, counter: nat, k: nat)
      reads this`UnwantedCodes, this`CodeGuidelines, this`CodeDocumentations, this`rulesIDCounter, this`CleanCodeRules
      reads UnwantedCodes, CodeGuidelines, CodeDocumentations
    {
      ArraysSet() && k <= |all| && |AllRules()| == |all| &&
      var st := RegisterAll(all[..k], counter);
      !st.failed && rulesIDCounter == st.counter && CleanCodeRules == Some(st.table) &&
      AllRules() == st.rules + all[k..]
    }

    /** The state after all of `all` was handled, by whichever path. */
    ghost predicate RegisteredAll(all: seq<CleanCodeRule>, counter: nat)
      reads this`UnwantedCodes, this`CodeGuidelines, this`CodeDocumentations, this`rulesIDCounter, this`CleanCodeRules
      reads UnwantedCodes, CodeGuidelines, CodeDocumentations
    {
      var st := RegisterAll(all, counter);
      ArraysSet() && AllRules() == st.rules && rulesIDCounter == st.counter && CleanCodeRules == Some(st.table)
    }

    /**
     * UpdateRules: clear the dictionary, stop if an array is missing, then
     * visit unwanted codes, guidelines and documentations in that order,
     * giving each rule without an ID the next counter value and adding the
     * valid ones to the dictionary.
     */
    method UpdateRules() returns (r: Outcome<()>)
      modifies this`CleanCodeRules, this`rulesIDCounter, UnwantedCodes, CodeGuidelines, CodeDocumentations
      ensures old(CleanCodeRules).None? ==>
        r == Throw(NullReference) && CleanCodeRules == None && rulesIDCounter == old(rulesIDCounter)
      ensures old(CleanCodeRules).None? || !ArraysSet() ==>
        (UnwantedCodes != null ==> UnwantedCodes[..] == old(UnwantedCodes[..])) &&
        (CodeGuidelines != null ==> CodeGuidelines[..] == old(CodeGuidelines[..])) &&
        (CodeDocumentations != null ==> CodeDocumentations[..] == old(CodeDocumentations[..]))
      ensures old(CleanCodeRules).Some? && !ArraysSet() ==>
        r.Return? && CleanCodeRules == Some(map[]) && rulesIDCounter == old(rulesIDCounter)
      ensures old(CleanCodeRules).Some? && old(ArraysSet()) ==>
        RegisteredAll(old(AllRules()), old(rulesIDCounter)) &&
        (r.Throw? <==> RegisterAll(old(AllRules()), old(rulesIDCounter)).failed) && (r.Throw? ==> r.fault == DuplicateKey)
    {
      if CleanCodeRules.None? {
        return Throw(NullReference);
      }
      CleanCodeRules := Some(map[]);
      if UnwantedCodes == null || CodeGuidelines == null || CodeDocumentations == null {
        return Return(());
      }
      ghost var all := AllRules();
      ghost var c0 := rulesIDCounter;
      assert all == old(AllRules()) && c0 == old(rulesIDCounter);
      assert all[..0] == [] && all[0..] == all;
      r := RegisterUnwantedCodes(all, c0);
      if r.Throw? {
        return;
      }
      r := RegisterCodeGuidelines(all, c0);
      if r.Throw? {
        return;
      }
      r := RegisterCodeDocumentations(all, c0);
      if r.Return? {
        assert all[..|all|] == all;
        assert RegisteredAll(all, c0) && !RegisterAll(all, c0).failed;
      }
    }

    /** The first loop of UpdateRules, over the unwanted codes. */
    method RegisterUnwantedCodes(ghost all: seq<CleanCodeRule>, ghost c0: nat) returns (r: Outcome<()>)
      requires ArraysSet() && RegisteredUpTo(all, c0, 0)
      modifies this`CleanCodeRules, this`rulesIDCounter, UnwantedCodes
      ensures ArraysSet()
      ensures r.Return? ==> RegisteredUpTo(all, c0, UnwantedCodes.Length)
      ensures r.Throw? ==> r == Throw(DuplicateKey) && RegisteredAll(all, c0) && RegisterAll(all, c0).failed
    {
      r := Return(());
      var offset := 0;
      for i := 0 to UnwantedCodes.Length
        invariant r.Return? && RegisteredUpTo(all, c0, offset + i)
      {
        r := RegisterUnwantedCodeTurn(all, c0, i, offset + i);
        if r.Throw? {
          return;
        }
      }
    }

    /** One turn of that loop: rule i, at position k of all the rules. */
    method RegisterUnwantedCodeTurn(ghost all: seq<CleanCodeRule>, ghost c0: nat, i: nat, ghost k: nat) returns (r: Outcome<()>)
      requires ArraysSet() && i < UnwantedCodes.Length && k == 0 + i && RegisteredUpTo(all, c0, k)
      modifies this`CleanCodeRules, this`rulesIDCounter, UnwantedCodes
      ensures ArraysSet()
      ensures r.Return? ==> RegisteredUpTo(all, c0, k + 1)
      ensures r.Throw? ==> r == Throw(DuplicateKey) && RegisteredAll(all, c0) && RegisterAll(all, c0).failed
    {
      ghost var st := RegisterAll(all[..k], c0);
      ghost var su, sg, sd := UnwantedCodes[..], CodeGuidelines[..], CodeDocumentations[..];
      ghost var before := AllRules();
      var rule := UnwantedCodes[i];
      NextUnhandled(all, k, st.rules);
      if rule.GetID() == 0 {
        rulesIDCounter := rulesIDCounter + 1;
        rule := rule.SetID(rulesIDCounter);
        UnwantedCodes[i] := rule;
        StoreUnwanted(su, sg, sd, i, rule);
      }
      r := AddICleanCodeRule(Unwanted(rule));
      TurnAdvances(all, c0, k, before, Unwanted(rule), rulesIDCounter, CleanCodeRules.value, r.Throw?);
    }

    /** The second loop of UpdateRules, over the code guidelines. */
    method RegisterCodeGuidelines(ghost all: seq<CleanCodeRule>, ghost c0: nat) returns (r: Outcome<()>)
      requires ArraysSet() && RegisteredUpTo(all, c0, UnwantedCodes.Length)
      modifies this`CleanCodeRules, this`rulesIDCounter, CodeGuidelines
      ensures ArraysSet()
      ensures r.Return? ==> RegisteredUpTo(all, c0, UnwantedCodes.Length + CodeGuidelines.Length)
      ensures r.Throw? ==> r == Throw(DuplicateKey) && RegisteredAll(all, c0) && RegisterAll(all, c0).failed
    {
      r := Return(());
      var offset := UnwantedCodes.Length;
      for i := 0 to CodeGuidelines.Length
        invariant r.Return? && RegisteredUpTo(all, c0, offset + i)
      {
        r := RegisterCodeGuidelineTurn(all, c0, i, offset + i);
        if r.Throw? {
          return;
        }
      }
    }

    /** One turn of that loop: rule i, at position k of all the rules. */
    method RegisterCodeGuidelineTurn(ghost all: seq<CleanCodeRule>, ghost c0: nat, i: nat, ghost k: nat) returns (r: Outcome<()>)
      requires ArraysSet() && i < CodeGuidelines.Length && k == UnwantedCodes.Length + i && RegisteredUpTo(all, c0, k)
      modifies this`CleanCodeRules, this`rulesIDCounter, CodeGuidelines
      ensures ArraysSet()
      ensures r.Return? ==> RegisteredUpTo(all, c0, k + 1)
      ensures r.Throw? ==> r == Throw(DuplicateKey) && RegisteredAll(all, c0) && RegisterAll(all, c0).failed
    {
      ghost var st := RegisterAll(all[..k], c0);
      ghost var su, sg, sd := UnwantedCodes[..], CodeGuidelines[..], CodeDocumentations[..];
      ghost var before := AllRules();
      var rule := CodeGuidelines[i];
      NextUnhandled(all, k, st.rules);
      if rule.GetID() == 0 {
        rulesIDCounter := rulesIDCounter + 1;
        rule := rule.SetID(rulesIDCounter);
        CodeGuidelines[i] := rule;
        StoreGuideline(su, sg, sd, i, rule);
      }
      r := AddICleanCodeRule(Guideline(rule));
      TurnAdvances(all, c0, k, before, Guideline(rule), rulesIDCounter, CleanCodeRules.value, r.Throw?);
    }

    /** The third loop of UpdateRules, over the code documentations. */
    method RegisterCodeDocumentations(ghost all: seq<CleanCodeRule>, ghost c0: nat) returns (r: Outcome<()>)
      requires ArraysSet() && RegisteredUpTo(all, c0, UnwantedCodes.Length + CodeGuidelines.Length)
      modifies this`CleanCodeRules, this`rulesIDCounter, CodeDocumentations
      ensures ArraysSet()
      ensures r.Return? ==> RegisteredUpTo(all, c0, |all|)
      ensures r.Throw? ==> r == Throw(DuplicateKey) && RegisteredAll(all, c0) && RegisterAll(all, c0).failed
    {
      r := Return(());
      var offset := UnwantedCodes.Length + CodeGuidelines.Length;
      for i := 0 to CodeDocumentations.Length
        invariant r.Return? && RegisteredUpTo(all, c0, offset + i)
      {
        r := RegisterCodeDocumentationTurn(all, c0, i, offset + i);
        if r.Throw? {
          return;
        }
      }
    }

    /** One turn of that loop: rule i, at position k of all the rules. */
    method RegisterCodeDocumentationTurn(ghost all: seq<CleanCodeRule>, ghost c0: nat, i: nat, ghost k: nat) returns (r: Outcome<()>)
      requires ArraysSet() && i < CodeDocumentations.Length && k == UnwantedCodes.Length + CodeGuidelines.Length + i && RegisteredUpTo(all, c0, k)
      modifies this`CleanCodeRules, this`rulesIDCounter, CodeDocumentations
      ensures ArraysSet()
      ensures r.Return? ==> RegisteredUpTo(all, c0, k + 1)
      ensures r.Throw? ==> r == Throw(DuplicateKey) && RegisteredAll(all, c0) && RegisterAll(all, c0).failed
    {
      ghost var st := RegisterAll(all[..k], c0);
      ghost var su, sg, sd := UnwantedCodes[..], CodeGuidelines[..], CodeDocumentations[..];
      ghost var before := AllRules();
      var rule := CodeDocumentations[i];
      NextUnhandled(all, k, st.rules);
      if rule.GetID() == 0 {
        rulesIDCounter := rulesIDCounter + 1;
        rule := rule.SetID(rulesIDCounter);
        CodeDocumentations[i] := rule;
        StoreDocumentation(su, sg, sd, i, rule);
      }
      r := AddICleanCodeRule(Documentation(rule));
      TurnAdvances(all, c0, k, before, Documentation(rule), rulesIDCounter, CleanCodeRules.value, r.Throw?);
    }

    /**
     * The corrected rebuild: before numbering, the counter is raised to the
     * largest ID already stored, so a new rule never receives an ID a stored
     * rule holds.
     */
    method UpdateRulesResumingCounter() returns (r: Outcome<()>)
      modifies this`CleanCodeRules, this`rulesIDCounter, UnwantedCodes, CodeGuidelines, CodeDocumentations
      ensures old(CleanCodeRules).Some? && old(ArraysSet()) ==>
        var start := if old(rulesIDCounter) < MaxID(old(AllRules())) then MaxID(old(AllRules())) else old(rulesIDCounter);
        RegisteredAll(old(AllRules()), start) &&
        (StoredIDsDistinct(old(AllRules())) ==> r.Return?)
      ensures old(CleanCodeRules).None? ==> r == Throw(NullReference) && CleanCodeRules == None
    {
      if CleanCodeRules.Some? && ArraysSet() {
        var m := MaxID(AllRules());
        if rulesIDCounter < m {
          rulesIDCounter := m;
        }
        ghost var rules := AllRules();
        if StoredIDsDistinct(rules) {
          ResumedCounterNeverThrows(rules, rulesIDCounter);
        }
      }
      r := UpdateRules();
    }

    /**
     * OnEnable: the first time, create the dictionary, build it, run the
     * queued listeners in order and empty the queue. If the build throws,
     * the exception leaves OnEnable before the listeners run.
     */
    method OnEnable() returns (r: Outcome<()>)
      requires ListenersAccounted()
      modifies this`CleanCodeRules, this`rulesIDCounter, UnwantedCodes, CodeGuidelines, CodeDocumentations
      modifies this`settingsReady, this`invoked
      ensures ListenersAccounted()
      ensures old(CleanCodeRules).Some? ==>
        r.Return? && CleanCodeRules == old(CleanCodeRules) && rulesIDCounter == old(rulesIDCounter) &&
        settingsReady == old(settingsReady) && invoked == old(invoked)
      ensures old(CleanCodeRules).None? && !ArraysSet() ==> r.Return? && CleanCodeRules == Some(map[])
      ensures old(CleanCodeRules).None? && old(ArraysSet()) ==>
        RegisteredAll(old(AllRules()), old(rulesIDCounter)) &&
        (r.Throw? <==> RegisterAll(old(AllRules()), old(rulesIDCounter)).failed)
      ensures old(CleanCodeRules).None? && r.Return? ==>
        invoked == old(settingsReady) && settingsReady == [] && invoked == subscribed
      ensures r.Throw? ==> settingsReady == old(settingsReady) && invoked == old(invoked)
    {
      if CleanCodeRules.None? {
        assert invoked == [] && settingsReady == subscribed;
        CleanCodeRules := Some(map[]);
        r := UpdateRules();
        if r.Throw? {
          return;
        }
        invoked := invoked + settingsReady;
        settingsReady := [];
      } else {
        r := Return(());
      }
    }
  }

  lemma NextUnhandled(all: seq<CleanCodeRule>, k: nat, handled: seq<CleanCodeRule>)
    requires |handled| == k < |all|
    ensures (handled + all[k..])[k] == all[k]
  {
  }

  /** Storing one handled rule in place of the next unhandled one moves the boundary on by one. */
  lemma ProcessedOne(all: seq<CleanCodeRule>, k: nat, handled: seq<CleanCodeRule>, x: CleanCodeRule)
    requires |handled| == k < |all|
    ensures (handled + all[k..])[k := x] == (handled + [x]) + all[k + 1..]
  {
  }

  /** One loop turn as the code performs it (bump and SetID for a new rule, then Add) is one Register step. */
  lemma TurnIsRegister(st: Registration, rule: CleanCodeRule, numbered: CleanCodeRule, counter: nat,
                       table: map<nat, CleanCodeRule>, thrown: bool)
    requires !st.failed
    requires counter == (if rule.GetID() == 0 then st.counter + 1 else st.counter)
    requires numbered == (if rule.GetID() == 0 then rule.SetID(counter) else rule)
    requires thrown <==> numbered.IsValid() && numbered.GetID() in st.table
    requires table == (if numbered.IsValid() && !thrown then st.table[numbered.GetID() := numbered] else st.table)
    ensures Register(st, rule) == Registration(st.rules + [numbered], counter, table, thrown)
  {
  }

  lemma StoreUnwanted(su: seq<UnwantedCode>, sg: seq<CodeGuideline>, sd: seq<CodeDocumentation>, i: nat, x: UnwantedCode)
    requires i < |su|
    ensures Unwanteds(su[i := x]) + Guidelines(sg) + Documentations(sd)
         == (Unwanteds(su) + Guidelines(sg) + Documentations(sd))[i := Unwanted(x)]
  {
    assert Unwanteds(su[i := x]) == Unwanteds(su)[i := Unwanted(x)];
  }

  lemma StoreGuideline(su: seq<UnwantedCode>, sg: seq<CodeGuideline>, sd: seq<CodeDocumentation>, i: nat, x: CodeGuideline)
    requires i < |sg|
    ensures Unwanteds(su) + Guidelines(sg[i := x]) + Documentations(sd)
         == (Unwanteds(su) + Guidelines(sg) + Documentations(sd))[|su| + i := Guideline(x)]
  {
    assert Guidelines(sg[i := x]) == Guidelines(sg)[i := Guideline(x)];
  }

  lemma StoreDocumentation(su: seq<UnwantedCode>, sg: seq<CodeGuideline>, sd: seq<CodeDocumentation>, i: nat, x: CodeDocumentation)
    requires i < |sd|
    ensures Unwanteds(su) + Guidelines(sg) + Documentations(sd[i := x])
         == (Unwanteds(su) + Guidelines(sg) + Documentations(sd))[|su| + |sg| + i := Documentation(x)]
  {
    assert Documentations(sd[i := x]) == Documentations(sd)[i := Documentation(x)];
  }

  /**
   * The whole effect of one loop turn on the registration: handling rule k
   * turns the first k+1 rules' registration into the stored state, and a
   * throw there fixes the registration of all the rules.
   */
  lemma TurnAdvances(all: seq<CleanCodeRule>, c0: nat, k: nat, before: seq<CleanCodeRule>, x: CleanCodeRule,
                     counter: nat, table: map<nat, CleanCodeRule>, thrown: bool)
    requires k < |all| && !RegisterAll(all[..k], c0).failed
    requires before == RegisterAll(all[..k], c0).rules + all[k..]
    requires counter == (if all[k].GetID() == 0 then RegisterAll(all[..k], c0).counter + 1 else RegisterAll(all[..k], c0).counter)
    requires x == (if all[k].GetID() == 0 then all[k].SetID(counter) else all[k])
    requires thrown <==> x.IsValid() && x.GetID() in RegisterAll(all[..k], c0).table
    requires table == (if x.IsValid() && !thrown then RegisterAll(all[..k], c0).table[x.GetID() := x] else RegisterAll(all[..k], c0).table)
    ensures RegisterAll(all[..k + 1], c0) == Registration(RegisterAll(all[..k], c0).rules + [x], counter, table, thrown)
    ensures before[k := x] == RegisterAll(all[..k + 1], c0).rules + all[k + 1..]
    ensures thrown ==> RegisterAll(all, c0) == Registration(before[k := x], counter, table, true)
  {
    var st := RegisterAll(all[..k], c0);
    TurnIsRegister(st, all[k], x, counter, table, thrown);
    RegisterAllNext(all, k, c0);
    ProcessedOne(all, k, st.rules, x);
    if thrown {
      RegisterAllFrozen(all, k + 1, c0);
    }
  }
}
