/**
 * The second trait, `EloquentColumn\Traits\Models\HasColumnAttributes`:
 * its `getColumnDefinitions()` (declared columns only) and the
 * `getValidationRules()` that both traits share word for word.
 */
module ModelsTrait {
  import opened Php
  import opened OrderedMap
  import opened Attributes
  import opened Metadata
  import opened ColumnResolution

  /** `getColumnDefinitions()` of the second trait: declared columns only, no filter, nothing synthesised. */
  function SimpleColumnDefinitions(reg: Registry, c: ClassName): OMap<Column>
    requires WellFormed(reg) && Known(reg, c)
  {
    AssignAll([], DeclaredEntries(reg, ModelBaseInstance, Info(reg, c).properties))
  }

  /** The nested loops of the second trait's `getColumnDefinitions()`. */
  method GetSimpleColumnDefinitions(reg: Registry, c: ClassName) returns (definitions: OMap<Column>)
    requires WellFormed(reg) && Known(reg, c)
    ensures definitions == SimpleColumnDefinitions(reg, c)
  {
    definitions := [];
    var properties := Info(reg, c).properties;
    var i := 0;
    while i < |properties|
      invariant 0 <= i <= |properties|
      invariant definitions == AssignAll([], DeclaredEntries(reg, ModelBaseInstance, properties[..i]))
    {
      var property := properties[i];
      SimpleStep(reg, properties, i);
      if property.column.Some? {
        var name, column := ResolveColumn(reg, ModelBaseInstance, property);
        definitions := Assign(definitions, name, column);
      }
      i := i + 1;
    }
    assert properties[..|properties|] == properties;
  }

  lemma SimpleStep(reg: Registry, props: seq<Property>, i: nat)
    requires WellFormed(reg) && i < |props|
    ensures AssignAll([], DeclaredEntries(reg, ModelBaseInstance, props[..i + 1])) ==
              if props[i].column.Some? then
                Assign(AssignAll([], DeclaredEntries(reg, ModelBaseInstance, props[..i])),
                       Resolve(reg, ModelBaseInstance, props[i]).0, Resolve(reg, ModelBaseInstance, props[i]).1)
              else AssignAll([], DeclaredEntries(reg, ModelBaseInstance, props[..i]))
  {
    assert props[..i + 1] == props[..i] + [props[i]];
    DeclaredSnoc(reg, ModelBaseInstance, props[..i], props[i]);
    if props[i].column.Some? {
      AssignAllSnoc([], DeclaredEntries(reg, ModelBaseInstance, props[..i]), Resolve(reg, ModelBaseInstance, props[i]));
    }
  }

  /** A name is declared exactly when some property with a `Column` resolves to it. */
  lemma {:induction false} DeclaredKeysIff(reg: Registry, test: ModelTest, props: seq<Property>, k: string)
    requires WellFormed(reg)
    ensures k in Keys(DeclaredEntries(reg, test, props)) <==>
              exists i :: 0 <= i < |props| && props[i].column.Some? && Resolve(reg, test, props[i]).0 == k
    decreases |props|
  {
    if props != [] {
      var init := props[..|props| - 1];
      var p := props[|props| - 1];
      assert props == init + [p];
      DeclaredSnoc(reg, test, init, p);
      DeclaredKeysIff(reg, test, init, k);
      if p.column.Some? {
        KeysSnoc(DeclaredEntries(reg, test, init), Resolve(reg, test, p));
      }
      if exists i :: 0 <= i < |props| && props[i].column.Some? && Resolve(reg, test, props[i]).0 == k {
        var i :| 0 <= i < |props| && props[i].column.Some? && Resolve(reg, test, props[i]).0 == k;
        if i < |init| {
          assert init[i] == props[i];
        }
      }
      if exists i :: 0 <= i < |init| && init[i].column.Some? && Resolve(reg, test, init[i]).0 == k {
        var i :| 0 <= i < |init| && init[i].column.Some? && Resolve(reg, test, init[i]).0 == k;
        assert props[i] == init[i];
      }
    }
  }

  /**
   * The second trait's definitions: unique keys in order of first
   * declaration, exactly the declared names (no link or `type` column), and a
   * repeated name holding the last column declared for it.
   */
  lemma SimpleColumnDefinitionsSpec(reg: Registry, c: ClassName, k: string)
    requires WellFormed(reg) && Known(reg, c)
    ensures UniqueKeys(SimpleColumnDefinitions(reg, c))
    ensures Keys(SimpleColumnDefinitions(reg, c)) == Dedup(Keys(DeclaredEntries(reg, ModelBaseInstance, Info(reg, c).properties)))
    ensures k in Keys(SimpleColumnDefinitions(reg, c)) <==>
              exists i :: 0 <= i < |Info(reg, c).properties| && Info(reg, c).properties[i].column.Some? &&
                          Resolve(reg, ModelBaseInstance, Info(reg, c).properties[i]).0 == k
    ensures Get(SimpleColumnDefinitions(reg, c), k) == Get(DeclaredEntries(reg, ModelBaseInstance, Info(reg, c).properties), k)
  {
    var es := DeclaredEntries(reg, ModelBaseInstance, Info(reg, c).properties);
    AssignAllKeys([], es);
    assert Keys<Column>([]) + Keys(es) == Keys(es);
    DedupMember(Keys(es), k);
    DeclaredKeysIff(reg, ModelBaseInstance, Info(reg, c).properties, k);
    AssignAllGet([], es, k);
    GetSome(es, k);
  }

  // ---------------------------------------------------------------------
  // getValidationRules()

  /** The key a property's rules are filed under: the Column's explicit name, else the raw property name. */
  function RuleName(p: Property): string
    requires p.column.Some?
  {
    if p.column.value.name.Some? then p.column.value.name.value else p.name
  }

  type RuleTriple = (string, string, Option<string>)

  /** One property's contributions, (name, rule, message), in attribute order; none without a Column. */
  function RulesOf(p: Property): (ts: seq<RuleTriple>)
    ensures p.column.None? ==> ts == []
    ensures p.column.Some? ==> |ts| == |p.rules|
  {
    if p.column.None? then []
    else seq(|p.rules|, j requires 0 <= j < |p.rules| => (RuleName(p), p.rules[j].rule, p.rules[j].message))
  }

  function RuleTriples(props: seq<Property>): seq<RuleTriple>
    decreases |props|
  {
    if props == [] then [] else RuleTriples(props[..|props| - 1]) + RulesOf(props[|props| - 1])
  }

  /** `$rules`: rule name to message, per column name. */
  type Rules = OMap<OMap<Option<string>>>

  /** `$rules[$name][$rule] = $message`, creating the inner array on first use. */
  function AddRule(rules: Rules, t: RuleTriple): Rules {
    var inner := match Get(rules, t.0) case Some(m) => m case None => [];
    Assign(rules, t.0, Assign(inner, t.1, t.2))
  }

  function FoldRules(rules: Rules, ts: seq<RuleTriple>): Rules
    decreases |ts|
  {
    if ts == [] then rules else AddRule(FoldRules(rules, ts[..|ts| - 1]), ts[|ts| - 1])
  }

  /** `getValidationRules()`. */
  function ValidationRules(reg: Registry, c: ClassName): Rules
    requires Known(reg, c)
  {
    FoldRules([], RuleTriples(Info(reg, c).properties))
  }

  /** The message of the last triple for (name, rule), if any. */
  function LastMessage(ts: seq<RuleTriple>, name: string, rule: string): Option<Option<string>>
    decreases |ts|
  {
    if ts == [] then None
    else if ts[|ts| - 1].0 == name && ts[|ts| - 1].1 == rule then Some(ts[|ts| - 1].2)
    else LastMessage(ts[..|ts| - 1], name, rule)
  }

  lemma FoldRulesSnoc(rules: Rules, ts: seq<RuleTriple>, t: RuleTriple)
    ensures FoldRules(rules, ts + [t]) == AddRule(FoldRules(rules, ts), t)
  {
    assert (ts + [t])[..|ts|] == ts;
  }

  /** A name is a key exactly when some triple carries it, and keys are unique. */
  lemma {:induction false} FoldRulesKeys(ts: seq<RuleTriple>)
    ensures UniqueKeys(FoldRules([], ts))
    ensures forall name :: name in Keys(FoldRules([], ts)) <==> name in TripleNames(ts)
    decreases |ts|
  {
    if ts != [] {
      var init := ts[..|ts| - 1];
      var t := ts[|ts| - 1];
      var r := FoldRules([], init);
      FoldRulesKeys(init);
      var inner := match Get(r, t.0) case Some(m) => m case None => [];
      AssignKeys(r, t.0, Assign(inner, t.1, t.2));
      TripleNamesLast(ts);
    }
  }

  function TripleNames(ts: seq<RuleTriple>): (ns: seq<string>)
    ensures |ns| == |ts| && forall i :: 0 <= i < |ts| ==> ns[i] == ts[i].0
  {
    seq(|ts|, i requires 0 <= i < |ts| => ts[i].0)
  }

  lemma TripleNamesLast(ts: seq<RuleTriple>)
    requires ts != []
    ensures TripleNames(ts) == TripleNames(ts[..|ts| - 1]) + [ts[|ts| - 1].0]
  {
  }

  /** Each (name, rule) holds the message of its last occurrence: repeating a rule string keeps the last message. */
  lemma {:induction false} FoldRulesLookup(ts: seq<RuleTriple>, name: string, rule: string)
    ensures (match Get(FoldRules([], ts), name) case Some(m) => Get(m, rule) case None => None) ==
              LastMessage(ts, name, rule)
    decreases |ts|
  {
    if ts != [] {
      var init := ts[..|ts| - 1];
      var t := ts[|ts| - 1];
      var r := FoldRules([], init);
      FoldRulesLookup(init, name, rule);
      var inner := match Get(r, t.0) case Some(m) => m case None => [];
      AssignGet(r, t.0, Assign(inner, t.1, t.2), name);
      AssignGet(inner, t.1, t.2, rule);
    }
  }

  /** Only properties carrying a `Column` contribute, each under its `RuleName`. */
  lemma {:induction false} RuleTriplesFromColumns(props: seq<Property>)
    ensures forall t :: t in RuleTriples(props) ==>
              exists i :: 0 <= i < |props| && props[i].column.Some? && t.0 == RuleName(props[i]) &&
                          ValidationRule(t.1, t.2) in props[i].rules
    decreases |props|
  {
    if props != [] {
      var init := props[..|props| - 1];
      var p := props[|props| - 1];
      RuleTriplesFromColumns(init);
      forall t | t in RuleTriples(props)
        ensures exists i :: 0 <= i < |props| && props[i].column.Some? && t.0 == RuleName(props[i]) &&
                            ValidationRule(t.1, t.2) in props[i].rules
      {
        if t in RuleTriples(init) {
          var i :| 0 <= i < |init| && init[i].column.Some? && t.0 == RuleName(init[i]) &&
                   ValidationRule(t.1, t.2) in init[i].rules;
          assert props[i] == init[i];
        } else {
          assert t in RulesOf(p);
          var j :| 0 <= j < |RulesOf(p)| && RulesOf(p)[j] == t;
          assert p.rules[j] == ValidationRule(t.1, t.2);
          assert props[|props| - 1] == p;
        }
      }
    }
  }

  lemma {:induction false} FoldRulesAppend(rules: Rules, ts: seq<RuleTriple>, us: seq<RuleTriple>)
    ensures FoldRules(rules, ts + us) == FoldRules(FoldRules(rules, ts), us)
    decreases |us|
  {
    if us == [] {
      assert ts + us == ts;
    } else {
      var init := us[..|us| - 1];
      assert ts + us == (ts + init) + [us[|us| - 1]];
      FoldRulesSnoc(rules, ts + init, us[|us| - 1]);
      FoldRulesAppend(rules, ts, init);
    }
  }

  /** One more attribute of a property folds in one more triple. */
  lemma FoldRulesStep(rules0: Rules, p: Property, j: nat)
    requires p.column.Some? && j < |p.rules|
    ensures FoldRules(rules0, RulesOf(p)[..j + 1]) ==
            AddRule(FoldRules(rules0, RulesOf(p)[..j]), (RuleName(p), p.rules[j].rule, p.rules[j].message))
  {
    var t := (RuleName(p), p.rules[j].rule, p.rules[j].message);
    assert RulesOf(p)[..j + 1] == RulesOf(p)[..j] + [t];
    FoldRulesSnoc(rules0, RulesOf(p)[..j], t);
  }

  /** The inner loop of `getValidationRules()` for one property with a Column. */
  method AddPropertyRules(rules0: Rules, property: Property) returns (rules: Rules)
    requires property.column.Some?
    ensures rules == FoldRules(rules0, RulesOf(property))
  {
    rules := rules0;
    var name := if property.column.value.name.Some? then property.column.value.name.value else property.name;
    assert name == RuleName(property);
    var j := 0;
    while j < |property.rules|
      invariant 0 <= j <= |property.rules|
      invariant rules == FoldRules(rules0, RulesOf(property)[..j])
    {
      var instance := property.rules[j];
      FoldRulesStep(rules0, property, j);
      ghost var t := (name, instance.rule, instance.message);
      assert t == (RuleName(property), property.rules[j].rule, property.rules[j].message);
      ghost var prev := rules;
      assert prev == FoldRules(rules0, RulesOf(property)[..j]);
      rules := AddRule(rules, (name, instance.rule, instance.message));
      assert rules == AddRule(prev, t);
      assert rules == FoldRules(rules0, RulesOf(property)[..j + 1]);
      j := j + 1;
    }
    assert RulesOf(property)[..j] == RulesOf(property);
  }

  lemma RuleTriplesStep(props: seq<Property>, i: nat)
    requires i < |props|
    ensures RuleTriples(props[..i + 1]) == RuleTriples(props[..i]) + RulesOf(props[i])
  {
    assert props[..i + 1][..i] == props[..i];
  }

  /** The outer loop of `getValidationRules()`. */
  method GetValidationRules(reg: Registry, c: ClassName) returns (rules: Rules)
    requires Known(reg, c)
    ensures rules == ValidationRules(reg, c)
  {
    rules := [];
    var properties := Info(reg, c).properties;
    var i := 0;
    while i < |properties|
      invariant 0 <= i <= |properties|
      invariant rules == FoldRules([], RuleTriples(properties[..i]))
    {
      var property := properties[i];
      RuleTriplesStep(properties, i);
      FoldRulesAppend([], RuleTriples(properties[..i]), RulesOf(property));
      if property.column.Some? {
        rules := AddPropertyRules(rules, property);
      } else {
        assert RulesOf(property) == [];
      }
      i := i + 1;
    }
    assert properties[..|properties|] == properties;
  }
}
