/** The page's script and the save handler, statement by statement. */
module FormPage {
  import opened Bytes
  import opened Form

  /** The controls among the first `n` that are not bound yet. */
  function Unbound(fs: seq<Field>, n: nat): (k: nat)
    requires n <= |fs|
  {
    if n == 0 then 0 else Unbound(fs, n - 1) + if fs[n - 1].kind != Button && !fs[n - 1].bound then 1 else 0
  }

  class Page {
    var fields: seq<Field>

    constructor (fields: seq<Field>)
      ensures this.fields == fields
    {
      this.fields := fields;
    }

    /** `init`: binds every managed control that is not bound yet, and says how many. */
    method Init() returns (bound: nat)
      modifies this
      ensures fields == BoundAll(old(fields)) && bound == Unbound(old(fields), |fields|)
    {
      bound := 0;
      for i := 0 to |fields|
        invariant |fields| == |old(fields)| && bound == Unbound(old(fields), i)
        invariant forall k | 0 <= k < i :: fields[k] == Bound(old(fields)[k])
        invariant forall k | i <= k < |fields| :: fields[k] == old(fields)[k]
      {
        var f := fields[i];
        if f.kind == Button || f.bound {
          continue;
        }
        if f.original.None? {
          f := f.(original := Some(f.value));
        }
        f := f.(dirty := false, bound := true);
        fields := fields[i := f];
        bound := bound + 1;
      }
    }

    /** An `input` or `change` event on control `at`. */
    method Change(at: nat, value: string, checked: bool)
      requires at < |fields|
      modifies this
      ensures fields == AfterEdit(old(fields), Edit(at, value, checked))
    {
      var f := fields[at].(value := value, checked := checked);
      if f.bound {
        f := f.(dirty := true);
      }
      fields := fields[at := f];
    }

    /** `serialize`: the payload of the form, in the order of its controls. */
    method Serialize() returns (out: Payload)
      ensures out == Serialized(fields, |fields|).out
    {
      hide FirstChecked;
      out := [];
      var seen: set<string> := {};
      for i := 0 to |fields|
        invariant Progress(seen, out) == Serialized(fields, i)
      {
        var f := fields[i];
        if f.kind == Button || f.name == "" || f.name in seen {
          continue;
        }
        if f.kind == Radio {
          var checked := FirstChecked(fields, f.name);
          if checked.None? {
            continue;
          }
          seen := seen + {f.name};
          out := out + [(f.name, if checked.value.dirty then checked.value.value else OriginalOf(checked.value))];
          continue;
        }
        seen := seen + {f.name};
        if f.kind == Checkbox {
          if f.dirty {
            out := out + [(f.name, if f.checked then "true" else "false")];
          } else {
            out := out + [(f.name, OriginalOf(f))];
          }
          continue;
        }
        if f.writeOnly && !f.dirty {
          continue;
        }
        if f.fromDefault && !f.dirty {
          continue;
        }
        out := out + [(f.name, if f.dirty then f.value else OriginalOf(f))];
      }
    }
  }

  class Server {
    var kv: Kv

    constructor (kv: Kv)
      ensures this.kv == kv
    {
      this.kv := kv;
    }

    /** The write loop of `submit_device_form`. */
    method Submit(app: string, device: string, vars: seq<Var>, items: Payload, other: string -> Option<Value>)
      modifies this
      ensures kv == Saved(old(kv), app, device, vars, items, other)
    {
      hide Key, EncKey, DecodeForm;
      for i := 0 to |items|
        invariant kv == Saved(old(kv), app, device, vars, items[..i], other)
      {
        var (name, raw) := items[i];
        assert items[..i + 1][..i] == items[..i];
        if name == "" || '/' in name {
          continue;
        }
        var key, enc := Key(app, device, name), EncKey(app, device, name);
        kv := kv[key := Packed(DecodeForm(raw, other))];
        var declared := Lookup(vars, name);
        if declared.Some? {
          if declared.value.encrypted {
            kv := kv[enc := Flag];
          } else {
            kv := kv - {enc};
          }
        } else if FlagAt(kv, enc) {
          kv := kv[enc := Flag];
        }
      }
      assert items[..|items|] == items;
    }
  }

  /** Loading the page, editing it and saving it is the round of the model. */
  method LoadEditAndSave(server: Server, app: string, device: string, vars: seq<Var>, shown: seq<string>,
                         edits: seq<Edit>, other: string -> Option<Value>)
    requires |shown| == |vars| && forall e | e in edits :: e.at < |vars|
    modifies server
    ensures server.kv == LoadEditSave(old(server.kv), app, device, vars, shown, edits, other)
  {
    hide BoundAll, AfterEdit, Serialized, Saved, Resolve;
    var page := new Page(Render(server.kv, app, device, vars, shown));
    var _ := page.Init();
    ghost var start := page.fields;
    for i := 0 to |edits|
      invariant page.fields == AfterEdits(start, edits[..i]) && fresh(page) && server.kv == old(server.kv)
    {
      assert edits[..i + 1][..i] == edits[..i] && edits[i] in edits;
      page.Change(edits[i].at, edits[i].value, edits[i].checked);
    }
    assert edits[..|edits|] == edits;
    var out := page.Serialize();
    server.Submit(app, device, vars, out, other);
  }
}
