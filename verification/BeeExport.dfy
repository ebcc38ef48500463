/**
 Export of a Bee profile to the orchestration layer (pkg/config/bee.go): every set field is copied
 to the field of the same name and type, and an empty RPC endpoint falls back to the deprecated
 swap endpoint.
 */
module BeeExport {
  import opened Wrappers
  import opened ConfigInheritance

  const RPC_ENDPOINT := "BlockchainRPCEndpoint"
  const SWAP_ENDPOINT := "SwapEndpoint"

  // The orchestration.Config struct: its fields by name.
  type Target = map<string, Value>

  predicate SameType(a: Value, b: Value) {
    (a.Text? <==> b.Text?) && (a.Number? <==> b.Number?)
  }

  // The two structs: field names of the profile (in order), and the zero value of the target.
  ghost predicate Schema(names: seq<string>, zero: Target) {
    && (forall i, j :: 0 <= i < j < |names| ==> names[i] != names[j])
    && SWAP_ENDPOINT in names && SWAP_ENDPOINT !in zero
    && RPC_ENDPOINT in names && RPC_ENDPOINT in zero && zero[RPC_ENDPOINT] == Text("")
  }

  function Copied(field: Option<Value>, current: Value): Value {
    if field.Some? && SameType(field.value, current) then field.value else current
  }

  function IndexOf(names: seq<string>, name: string): (i: nat)
    ensures i <= |names|
    ensures i < |names| ==> names[i] == name
    ensures name in names ==> i < |names|
  {
    if names == [] then 0 else if names[0] == name then 0 else 1 + IndexOf(names[1..], name)
  }

  // The target a list of resolved fields is exported to.
  ghost predicate Exports(fields: seq<Option<Value>>, names: seq<string>, zero: Target, out: Target)
    requires Schema(names, zero) && |fields| == |names|
  {
    && out.Keys == zero.Keys
    && (forall i :: 0 <= i < |names| && names[i] in zero && names[i] != RPC_ENDPOINT ==>
          out[names[i]] == Copied(fields[i], zero[names[i]]))
    && (forall key :: key in zero && key !in names ==> out[key] == zero[key])
    && var rpc := Copied(fields[IndexOf(names, RPC_ENDPOINT)], Text(""));
       var swap := fields[IndexOf(names, SWAP_ENDPOINT)];
       out[RPC_ENDPOINT] == if rpc == Text("") && swap.Some? then swap.value else rpc
  }

  // The target after the fields of the same name and type are copied.
  ghost predicate FieldsCopied(fields: seq<Option<Value>>, names: seq<string>, zero: Target, out: Target)
    requires |fields| == |names|
  {
    && out.Keys == zero.Keys
    && (forall i :: 0 <= i < |names| && names[i] in zero ==> out[names[i]] == Copied(fields[i], zero[names[i]]))
    && (forall key :: key in zero && key !in names ==> out[key] == zero[key])
  }

  method CopyFields(names: seq<string>, c: Config, zero: Target) returns (out: Target)
    requires forall i, j :: 0 <= i < j < |names| ==> names[i] != names[j]
    requires |c.fields| == |names|
    ensures FieldsCopied(c.fields, names, zero, out)
  {
    out := zero;
    for i := 0 to |names|
      invariant out.Keys == zero.Keys
      invariant forall k :: 0 <= k < i && names[k] in zero ==> out[names[k]] == Copied(c.fields[k], zero[names[k]])
      invariant forall key :: key in zero && key !in names[..i] ==> out[key] == zero[key]
    {
      assert names[i] !in names[..i];
      if c.fields[i].Some? {
        if names[i] in out && SameType(out[names[i]], c.fields[i].value) {
          out := out[names[i] := c.fields[i].value];
        }
      }
    }
    assert names[..|names|] == names;
  }

  method Export(names: seq<string>, c: Config, zero: Target) returns (out: Target)
    requires Schema(names, zero) && |c.fields| == |names|
    ensures Exports(c.fields, names, zero, out)
  {
    out := CopyFields(names, c, zero);
    var swap := c.fields[IndexOf(names, SWAP_ENDPOINT)];
    if out[RPC_ENDPOINT] == Text("") && swap.Some? {
      out := out[RPC_ENDPOINT := swap.value];
    }
  }

  // What an export puts in a field other than the endpoint: the profile's value if it is set and of the
  // field's type, and otherwise the zero value.
  lemma ExportedField(fields: seq<Option<Value>>, names: seq<string>, zero: Target, out: Target, i: nat)
    requires Schema(names, zero) && |fields| == |names| && Exports(fields, names, zero, out)
    requires i < |names| && names[i] in zero && names[i] != "BlockchainRPCEndpoint"
    ensures forall t, u :: fields[i] == Some(Text(t)) && zero[names[i]] == Text(u) ==> out[names[i]] == Text(t)
    ensures forall m, n :: fields[i] == Some(Number(m)) && zero[names[i]] == Number(n) ==> out[names[i]] == Number(m)
    ensures forall b, c :: fields[i] == Some(Flag(b)) && zero[names[i]] == Flag(c) ==> out[names[i]] == Flag(b)
    ensures out[names[i]] != zero[names[i]] ==> fields[i] == Some(out[names[i]])
    ensures out[names[i]].Text? == zero[names[i]].Text? && out[names[i]].Number? == zero[names[i]].Number?
  {
  }

  // The endpoint is the profile's own if it has a nonempty one, else its swap endpoint if it has one.
  lemma ExportedEndpoint(fields: seq<Option<Value>>, names: seq<string>, zero: Target, out: Target, r: nat, s: nat)
    requires Schema(names, zero) && |fields| == |names| && Exports(fields, names, zero, out)
    requires r < |names| && names[r] == "BlockchainRPCEndpoint" && s < |names| && names[s] == "SwapEndpoint"
    ensures forall t :: fields[r] == Some(Text(t)) && t != "" ==> out["BlockchainRPCEndpoint"] == Text(t)
    ensures fields[r] == None || fields[r] == Some(Text("")) ==>
              out["BlockchainRPCEndpoint"] == if fields[s].Some? then fields[s].value else Text("")
  {
    assert IndexOf(names, RPC_ENDPOINT) == r && IndexOf(names, SWAP_ENDPOINT) == s;
  }

  // Merging the map and then exporting a profile is resolving each field along its ancestry.
  method MergeThenExport(configs: Configs, names: seq<string>, zero: Target, name: string, ghost path: seq<string>)
    returns (r: Result<Target, MergeError>)
    requires Schema(names, zero) && Uniform(configs, |names|)
    requires Complete(configs, path, name)
    ensures r.Ok? <==> forall k :: k in configs ==> Resolvable(configs, k)
    ensures r.Ok? ==> Exports(Resolved(configs, path).fields, names, zero, r.value)
  {
    var merged, _ := MergeConfigs(configs, |names|);
    if merged.Err? {
      return Err(merged.error);
    }
    ghost var p :| Complete(configs, p, name) && merged.value[name] == Resolved(configs, p);
    CompleteUnique(configs, p, path, name);
    var out := Export(names, merged.value[name], zero);
    return Ok(out);
  }
}
