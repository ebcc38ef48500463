/**
 Configuration inheritance (pkg/config/config.go). A profile names at most one parent; merging
 fills every unset field from the parent's merged profile. The program does this with a memo
 table and an "on the stack" set, starting from the names in an unspecified order. Here the
 outcome is tied to ancestor paths, which mention neither the memo, the stack nor the order.
 */
module ConfigInheritance {
  import opened Wrappers

  datatype Value = Text(text: string) | Number(number: int) | Flag(flag: bool)

  // Every field of a profile is a pointer, nil when the profile does not set it; `inherit` is the
  // embedded *Inherit.
  datatype Config = Config(inherit: Option<string>, fields: seq<Option<Value>>) {
    function ParentName(): string {
      if inherit.Some? then inherit.value else ""
    }
  }

  type Configs = map<string, Config>

  datatype MergeError = Circular(name: string) | Missing(name: string)

  // All profiles of one map have the same Go type, hence the same number of fields.
  ghost predicate Uniform(configs: Configs, arity: nat) {
    forall name :: name in configs ==> |configs[name].fields| == arity
  }

  //// Ancestor paths

  ghost predicate Link(configs: Configs, child: string, parent: string) {
    child in configs && parent != "" && configs[child].inherit == Some(parent)
  }

  // A profile at the top: it has no *Inherit, or one that names nobody.
  predicate Parentless(c: Config) {
    c.inherit == None || c.inherit == Some("")
  }

  ghost predicate Lineage(configs: Configs, path: seq<string>) {
    && (forall i :: 0 <= i < |path| ==> path[i] in configs)
    && (forall i, j :: 0 <= i && j == i + 1 && j < |path| ==> Link(configs, path[i], path[j]))
  }

  // The whole ancestry of `name`, from itself to an ancestor without a parent.
  ghost predicate Complete(configs: Configs, path: seq<string>, name: string) {
    && path != []
    && path[0] == name
    && Lineage(configs, path)
    && Parentless(configs[path[|path| - 1]])
  }

  ghost predicate Resolvable(configs: Configs, name: string) {
    exists path :: Complete(configs, path, name)
  }

  // An ancestry that cannot be completed: its last parent is missing or already on the path.
  ghost predicate Broken(configs: Configs, path: seq<string>, bad: string) {
    && path != []
    && Lineage(configs, path)
    && bad != ""
    && configs[path[|path| - 1]].inherit == Some(bad)
    && (bad !in configs || bad in path)
  }

  // The error names what breaks the ancestry of `start`, and says which way it is broken.
  ghost predicate Explains(configs: Configs, start: string, error: MergeError) {
    && (error.Missing? <==> error.name !in configs)
    && exists path :: Broken(configs, path, error.name) && path[0] == start
  }

  //// The value a field inherits

  function FieldOf(configs: Configs, name: string, i: nat): Option<Value> {
    if name in configs && i < |configs[name].fields| then configs[name].fields[i] else None
  }

  function Inherited(configs: Configs, path: seq<string>, i: nat): Option<Value> {
    if path == [] then None
    else if FieldOf(configs, path[0], i).Some? then FieldOf(configs, path[0], i)
    else Inherited(configs, path[1..], i)
  }

  function Resolved(configs: Configs, path: seq<string>): Config
    requires path != [] && path[0] in configs
  {
    var own := configs[path[0]];
    Config(own.inherit, seq(|own.fields|, i requires 0 <= i < |own.fields| => Inherited(configs, path, i)))
  }

  ghost predicate Settled(configs: Configs, name: string, c: Config) {
    exists path :: Complete(configs, path, name) && c == Resolved(configs, path)
  }

  // `merged` is the configuration map the rule "nearest ancestor-or-self that sets the field" gives.
  ghost predicate IsMerge(configs: Configs, merged: Configs) {
    && merged.Keys == configs.Keys
    && forall name :: name in configs ==> Settled(configs, name, merged[name])
  }

  lemma {:induction false} NearestAncestorWins(configs: Configs, path: seq<string>, i: nat)
    ensures Inherited(configs, path, i).None? ==> forall k :: 0 <= k < |path| ==> FieldOf(configs, path[k], i).None?
    ensures Inherited(configs, path, i).Some? ==>
              exists k :: 0 <= k < |path| && FieldOf(configs, path[k], i) == Inherited(configs, path, i)
                          && forall j :: 0 <= j < k ==> FieldOf(configs, path[j], i).None?
  {
    if path != [] {
      if FieldOf(configs, path[0], i).None? {
        NearestAncestorWins(configs, path[1..], i);
        if Inherited(configs, path, i).Some? {
          var k :| 0 <= k < |path[1..]| && FieldOf(configs, path[1..][k], i) == Inherited(configs, path, i)
                   && forall j :: 0 <= j < k ==> FieldOf(configs, path[1..][j], i).None?;
          forall j | 0 <= j < k + 1
            ensures FieldOf(configs, path[j], i).None?
          {
            if j > 0 {
              assert path[j] == path[1..][j - 1];
            }
          }
          assert path[k + 1] == path[1..][k];
        } else {
          forall k | 0 <= k < |path|
            ensures FieldOf(configs, path[k], i).None?
          {
            if k > 0 {
              assert path[k] == path[1..][k - 1];
            }
          }
        }
      } else {
        assert FieldOf(configs, path[0], i) == Inherited(configs, path, i);
      }
    }
  }

  //// Paths are determined by their first name

  lemma {:induction false} LineageDeterministic(configs: Configs, p: seq<string>, q: seq<string>, i: nat)
    requires Lineage(configs, p) && Lineage(configs, q)
    requires i < |p| && i < |q| && p[0] == q[0]
    ensures p[i] == q[i]
  {
    if i > 0 {
      LineageDeterministic(configs, p, q, i - 1);
      assert Link(configs, p[i - 1], p[i]) && Link(configs, q[i - 1], q[i]);
    }
  }

  // No lineage from `name` goes past the end of its complete ancestry.
  lemma CompleteIsLongest(configs: Configs, p: seq<string>, q: seq<string>, name: string)
    requires Complete(configs, p, name)
    requires q != [] && q[0] == name && Lineage(configs, q)
    ensures |q| <= |p|
  {
    if |p| < |q| {
      assert Link(configs, q[|p| - 1], q[|p|]);
      LineageDeterministic(configs, p, q, |p| - 1);
    }
  }

  lemma CompleteUnique(configs: Configs, p: seq<string>, q: seq<string>, name: string)
    requires Complete(configs, p, name) && Complete(configs, q, name)
    ensures p == q
  {
    CompleteIsLongest(configs, p, q, name);
    CompleteIsLongest(configs, q, p, name);
    forall i | 0 <= i < |p|
      ensures p[i] == q[i]
    {
      LineageDeterministic(configs, p, q, i);
    }
  }

  lemma CompleteSuffix(configs: Configs, p: seq<string>, name: string, i: nat)
    requires Complete(configs, p, name)
    requires i < |p|
    ensures Complete(configs, p[i..], p[i])
  {
  }

  // A complete ancestry never visits a name twice: what follows the two visits would be equal,
  // yet of different lengths.
  lemma CompleteHasNoRepeats(configs: Configs, p: seq<string>, name: string, i: nat, j: nat)
    requires Complete(configs, p, name)
    requires i < j < |p|
    ensures p[i] != p[j]
  {
    CompleteSuffix(configs, p, name, i);
    CompleteSuffix(configs, p, name, j);
    if p[i] == p[j] {
      CompleteUnique(configs, p[j..], p[i..], p[i]);
    }
  }

  lemma BrokenNotResolvable(configs: Configs, path: seq<string>, bad: string)
    requires Broken(configs, path, bad)
    ensures !Resolvable(configs, path[0])
  {
    forall q | Complete(configs, q, path[0])
      ensures false
    {
      BrokenNeverCompletes(configs, path, bad, q);
    }
  }

  lemma BrokenNeverCompletes(configs: Configs, path: seq<string>, bad: string, q: seq<string>)
    requires Broken(configs, path, bad)
    ensures !Complete(configs, q, path[0])
  {
    if Complete(configs, q, path[0]) {
      CompleteIsLongest(configs, q, path, path[0]);
      var last := |path| - 1;
      LineageDeterministic(configs, path, q, last);
      assert |q| > |path|;
      assert Link(configs, q[last], q[last + 1]);
      var k :| 0 <= k < |path| && path[k] == bad;
      LineageDeterministic(configs, path, q, k);
      CompleteHasNoRepeats(configs, q, path[0], k, last + 1);
    }
  }

  lemma LineageExtend(configs: Configs, path: seq<string>, name: string)
    requires Lineage(configs, path) && name in configs
    requires path != [] ==> Link(configs, path[|path| - 1], name)
    ensures Lineage(configs, path + [name])
  {
  }

  // One step of the merge: a child whose parent is settled.
  lemma InheritFromParent(configs: Configs, name: string, rest: seq<string>)
    requires name in configs && configs[name].ParentName() != ""
    requires Complete(configs, rest, configs[name].ParentName())
    ensures Complete(configs, [name] + rest, name)
    ensures forall i: nat :: Inherited(configs, [name] + rest, i) ==
                             if FieldOf(configs, name, i).Some? then FieldOf(configs, name, i)
                             else Inherited(configs, rest, i)
  {
  }

  lemma SettleRoot(configs: Configs, name: string)
    requires name in configs && configs[name].ParentName() == ""
    ensures Settled(configs, name, configs[name])
  {
    var path := [name];
    assert path[1..] == [];
    assert forall i: nat :: Inherited(configs, path, i) == FieldOf(configs, name, i);
    assert Complete(configs, path, name);
    assert configs[name].fields == Resolved(configs, path).fields;
  }

  lemma SettleChild(configs: Configs, arity: nat, name: string, parent: Config, filled: Config)
    requires Uniform(configs, arity)
    requires name in configs && configs[name].ParentName() != ""
    requires Settled(configs, configs[name].ParentName(), parent)
    requires |filled.fields| == |parent.fields| == arity
    requires filled.inherit == configs[name].inherit
    requires forall i :: 0 <= i < arity ==>
               filled.fields[i] == if configs[name].fields[i].Some? then configs[name].fields[i] else parent.fields[i]
    ensures Settled(configs, name, filled)
  {
    var rest :| Complete(configs, rest, configs[name].ParentName()) && parent == Resolved(configs, rest);
    InheritFromParent(configs, name, rest);
    assert filled.fields == Resolved(configs, [name] + rest).fields;
  }

  lemma SettledArity(configs: Configs, arity: nat, name: string, c: Config)
    requires Uniform(configs, arity) && Settled(configs, name, c)
    ensures |c.fields| == arity
  {
  }

  //// The program

  class Merger {
    const configs: Configs
    ghost const arity: nat
    var merged: Configs
    var visited: set<string>
    // the names in the order their merged profile was stored
    ghost var mergeOrder: seq<string>

    ghost predicate Valid()
      reads this
    {
      && Uniform(configs, arity)
      && merged.Keys <= configs.Keys
      && merged.Keys !! visited
      && (forall name :: name in merged ==> Settled(configs, name, merged[name]))
      && (forall name :: name in merged <==> name in mergeOrder)
      && (forall i, j :: 0 <= i < j < |mergeOrder| ==> mergeOrder[i] != mergeOrder[j])
    }

    constructor (configs: Configs, ghost arity: nat)
      requires Uniform(configs, arity)
      ensures Valid() && this.configs == configs && this.arity == arity
      ensures merged == map[] && visited == {} && mergeOrder == []
    {
      this.configs, this.arity := configs, arity;
      merged, visited, mergeOrder := map[], {}, [];
    }

    // The field loop of the merge: set what the child leaves nil and the parent does not.
    method FillFromParent(child: Config, parent: Config) returns (m: Config)
      requires |child.fields| == |parent.fields|
      ensures m.inherit == (if child.inherit.None? then parent.inherit else child.inherit)
      ensures |m.fields| == |child.fields|
      ensures forall i :: 0 <= i < |m.fields| ==>
                m.fields[i] == if child.fields[i].Some? then child.fields[i] else parent.fields[i]
    {
      m := child;
      if m.inherit.None? && parent.inherit.Some? {
        m := m.(inherit := parent.inherit);
      }
      for i := 0 to |child.fields|
        invariant |m.fields| == |child.fields|
        invariant m.inherit == (if child.inherit.None? then parent.inherit else child.inherit)
        invariant forall k :: 0 <= k < i ==>
                    m.fields[k] == if child.fields[k].Some? then child.fields[k] else parent.fields[k]
        invariant forall k :: i <= k < |m.fields| ==> m.fields[k] == child.fields[k]
      {
        if m.fields[i].None? && parent.fields[i].Some? {
          m := m.(fields := m.fields[i := parent.fields[i]]);
        }
      }
    }

    // `stack` is the lineage from the name the outer loop started with down to, not including, `name`.
    method MergeParent(name: string, ghost stack: seq<string>) returns (r: Result<Config, MergeError>)
      requires Valid()
      requires Lineage(configs, stack)
      requires visited == set k | k in stack
      requires stack == [] ==> name in configs
      requires stack != [] ==> name != "" && configs[stack[|stack| - 1]].ParentName() == name
      modifies this`merged, this`visited, this`mergeOrder
      ensures Valid()
      ensures old(mergeOrder) <= mergeOrder
      ensures forall k :: k in old(merged) ==> k in merged && merged[k] == old(merged)[k]
      ensures r.Ok? ==> name in merged && merged[name] == r.value && visited == old(visited)
      ensures r.Err? ==> Explains(configs, (stack + [name])[0], r.error)
      decreases configs.Keys - visited
    {
      if name in merged {
        return Ok(merged[name]);
      }
      if name in visited {
        assert Broken(configs, stack, name);
        return Err(Circular(name));
      }
      visited := visited + {name};
      if name !in configs {
        assert Broken(configs, stack, name);
        return Err(Missing(name));
      }
      var v := configs[name];
      if |v.ParentName()| > 0 {
        LineageExtend(configs, stack, name);
        var parent := MergeParent(v.ParentName(), stack + [name]);
        if parent.Err? {
          assert (stack + [name] + [v.ParentName()])[0] == (stack + [name])[0];
          return Err(parent.error);
        }
        SettledArity(configs, arity, v.ParentName(), parent.value);
        v := FillFromParent(v, parent.value);
        SettleChild(configs, arity, name, parent.value, v);
      } else {
        SettleRoot(configs, name);
      }
      Store(name, v);
      return Ok(v);
    }

    method Store(name: string, v: Config)
      requires Valid() && name in configs && name !in merged && Settled(configs, name, v)
      modifies this`merged, this`visited, this`mergeOrder
      ensures Valid()
      ensures merged == old(merged)[name := v] && mergeOrder == old(mergeOrder) + [name]
      ensures visited == old(visited) - {name}
    {
      merged := merged[name := v];
      mergeOrder := mergeOrder + [name];
      visited := visited - {name};
    }
  }

  method MergeConfigs(configs: Configs, ghost arity: nat)
    returns (r: Result<Configs, MergeError>, ghost mergeOrder: seq<string>)
    requires Uniform(configs, arity)
    ensures r.Ok? <==> forall name :: name in configs ==> Resolvable(configs, name)
    ensures r.Ok? ==> IsMerge(configs, r.value)
    ensures r.Err? ==> exists name :: name in configs && Explains(configs, name, r.error)
    // every profile is merged at most once, and all of them on success
    ensures forall i, j :: 0 <= i < j < |mergeOrder| ==> mergeOrder[i] != mergeOrder[j]
    ensures forall name :: name in mergeOrder ==> name in configs
    ensures r.Ok? ==> forall name :: name in configs ==> name in mergeOrder
  {
    var merger := new Merger(configs, arity);
    var names := configs.Keys;
    while names != {}
      invariant merger.configs == configs && merger.Valid() && merger.visited == {}
      invariant names <= configs.Keys
      invariant forall name :: name in configs && name !in names ==> name in merger.merged
      decreases names
    {
      var name :| name in names;
      names := names - {name};
      var one := merger.MergeParent(name, []);
      if one.Err? {
        ghost var path :| Broken(configs, path, one.error.name) && path[0] == name;
        BrokenNotResolvable(configs, path, one.error.name);
        return Err(one.error), merger.mergeOrder;
      }
    }
    return Ok(merger.merged), merger.mergeOrder;
  }

  //// What follows for every run

  // The outcome does not depend on the iteration order: at most one map meets the rule.
  lemma MergeOrderIrrelevant(configs: Configs, m1: Configs, m2: Configs)
    requires IsMerge(configs, m1) && IsMerge(configs, m2)
    ensures m1 == m2
  {
    forall name | name in configs
      ensures m1[name] == m2[name]
    {
      MergedOnce(configs, m1, m2, name);
    }
  }

  lemma MergedOnce(configs: Configs, m1: Configs, m2: Configs, name: string)
    requires IsMerge(configs, m1) && IsMerge(configs, m2) && name in configs
    ensures m1[name] == m2[name]
  {
    SettledUnique(configs, name, m1[name], m2[name]);
  }

  lemma SettledUnique(configs: Configs, name: string, c: Config, d: Config)
    requires Settled(configs, name, c) && Settled(configs, name, d)
    ensures c == d
  {
    var p :| Complete(configs, p, name) && c == Resolved(configs, p);
    var q :| Complete(configs, q, name) && d == Resolved(configs, q);
    CompleteUnique(configs, p, q, name);
  }

  // Merging keeps the parent links, so an ancestry before the merge is one after it.
  lemma MergeKeepsLineage(configs: Configs, merged: Configs, path: seq<string>, name: string)
    requires IsMerge(configs, merged)
    requires Complete(configs, path, name)
    ensures Complete(merged, path, name)
  {
    forall k | k in configs
      ensures merged[k].inherit == configs[k].inherit
    {
      var p :| Complete(configs, p, k) && merged[k] == Resolved(configs, p);
    }
    forall i, j | 0 <= i && j == i + 1 && j < |path|
      ensures Link(merged, path[i], path[j])
    {
      assert Link(configs, path[i], path[j]);
    }
  }

  // A merged profile holds, in each field, what its ancestry gives.
  lemma MergedField(configs: Configs, merged: Configs, path: seq<string>, name: string, i: nat, arity: nat)
    requires Uniform(configs, arity)
    requires IsMerge(configs, merged)
    requires Complete(configs, path, name)
    ensures FieldOf(merged, name, i) == Inherited(configs, path, i)
  {
    var p :| Complete(configs, p, name) && merged[name] == Resolved(configs, p);
    CompleteUnique(configs, p, path, name);
    if i >= arity {
      FieldBeyondArity(configs, path, i, arity);
    }
  }

  // Looking a field up along the merged profiles finds what the first of them already holds.
  lemma {:induction false} MergedFieldIsFinal(configs: Configs, merged: Configs, path: seq<string>,
                                              name: string, i: nat, arity: nat)
    requires Uniform(configs, arity)
    requires IsMerge(configs, merged)
    requires Complete(configs, path, name)
    ensures Inherited(merged, path, i) == Inherited(configs, path, i)
    decreases |path|
  {
    MergedField(configs, merged, path, name, i, arity);
    if |path| > 1 {
      CompleteSuffix(configs, path, name, 1);
      MergedFieldIsFinal(configs, merged, path[1..], path[1], i, arity);
    } else {
      assert path[1..] == [];
    }
  }

  lemma {:induction false} FieldBeyondArity(configs: Configs, path: seq<string>, i: nat, arity: nat)
    requires Uniform(configs, arity)
    requires i >= arity
    ensures Inherited(configs, path, i).None?
  {
    if path != [] {
      FieldBeyondArity(configs, path[1..], i, arity);
    }
  }

  // One step up: a profile with a parent holds its own fields and, where it sets none, those of the
  // merged parent.
  lemma FilledFromMergedParent(configs: Configs, merged: Configs, name: string, parent: string, arity: nat)
    requires Uniform(configs, arity) && IsMerge(configs, merged)
    requires name in configs && configs[name].inherit == Some(parent) && parent != ""
    ensures parent in configs && |merged[name].fields| == |merged[parent].fields| == arity
    ensures forall i :: 0 <= i < arity ==>
              merged[name].fields[i] ==
              if configs[name].fields[i].Some? then configs[name].fields[i] else merged[parent].fields[i]
  {
    var path := Ancestry(configs, merged, name);
    assert Link(configs, path[0], path[1]);
    CompleteSuffix(configs, path, name, 1);
    SettledArity(configs, arity, name, merged[name]);
    SettledArity(configs, arity, parent, merged[parent]);
    forall i | 0 <= i < arity
      ensures merged[name].fields[i] ==
              if configs[name].fields[i].Some? then configs[name].fields[i] else merged[parent].fields[i]
    {
      MergedField(configs, merged, path, name, i, arity);
      MergedField(configs, merged, path[1..], parent, i, arity);
    }
  }

  lemma Ancestry(configs: Configs, merged: Configs, name: string) returns (path: seq<string>)
    requires IsMerge(configs, merged) && name in configs
    ensures Complete(configs, path, name) && merged[name] == Resolved(configs, path)
  {
    path :| Complete(configs, path, name) && merged[name] == Resolved(configs, path);
  }

  // A profile without a parent is left as it is.
  lemma ParentlessUnchanged(configs: Configs, merged: Configs, name: string)
    requires IsMerge(configs, merged)
    requires name in configs && (configs[name].inherit == None || configs[name].inherit == Some(""))
    ensures merged[name] == configs[name]
  {
    SettleRoot(configs, name);
    SettledUnique(configs, name, merged[name], configs[name]);
  }

  // Merging an already merged map changes nothing.
  lemma MergeIdempotent(configs: Configs, merged: Configs, arity: nat)
    requires Uniform(configs, arity)
    requires IsMerge(configs, merged)
    ensures Uniform(merged, arity)
    ensures IsMerge(merged, merged)
  {
    forall name | name in configs
      ensures |merged[name].fields| == arity && Settled(merged, name, merged[name])
    {
      MergedIsSettled(configs, merged, name, arity);
    }
  }

  lemma MergedIsSettled(configs: Configs, merged: Configs, name: string, arity: nat)
    requires Uniform(configs, arity) && IsMerge(configs, merged) && name in configs
    ensures |merged[name].fields| == arity && Settled(merged, name, merged[name])
  {
    var p :| Complete(configs, p, name) && merged[name] == Resolved(configs, p);
    MergeKeepsLineage(configs, merged, p, name);
    ResolvedAgain(configs, merged, p, name, arity);
  }

  lemma ResolvedAgain(configs: Configs, merged: Configs, path: seq<string>, name: string, arity: nat)
    requires Uniform(configs, arity) && IsMerge(configs, merged) && Complete(configs, path, name)
    requires merged[name] == Resolved(configs, path)
    ensures |merged[name].fields| == arity && Resolved(merged, path) == merged[name]
  {
    forall i: nat | i < arity
      ensures Inherited(merged, path, i) == Inherited(configs, path, i)
    {
      MergedFieldIsFinal(configs, merged, path, name, i, arity);
    }
    SameFields(configs, merged, path);
  }

  lemma SameFields(configs: Configs, merged: Configs, path: seq<string>)
    requires path != [] && path[0] in configs && path[0] in merged
    requires merged[path[0]] == Resolved(configs, path)
    requires forall i: nat :: i < |configs[path[0]].fields| ==>
               Inherited(merged, path, i) == Inherited(configs, path, i)
    ensures Resolved(merged, path) == merged[path[0]]
  {
  }
}
