/**
 The device form: values resolve through a device layer, a public layer and the catalog's default, the page shows
 them in controls, and a save sends back what the controls hold or held. What survives a load-edit-save round?
 */
module Form {
  import opened Bytes

  // ----- Values, and their text in a control -----

  /** A decoded MessagePack value; `Other` is a float, a list or a map, with what `str` makes of it. */
  datatype Value = Nil | Bool(b: bool) | Int(n: int) | Str(s: string) | Other(text: string)

  predicate AllDigits(s: string) { s != "" && forall i | 0 <= i < |s| :: '0' <= s[i] <= '9' }

  function Digits(n: nat): (s: string)
    ensures AllDigits(s) && (s[0] == '0' ==> |s| == 1 && n == 0)
  {
    if n < 10 then [('0' as int + n) as char] else Digits(n / 10) + [('0' as int + n % 10) as char]
  }

  /** `str` of an integer. */
  function Decimal(n: int): (s: string) { if n < 0 then "-" + Digits(-n) else Digits(n) }

  function FromDigits(s: string): (n: nat)
    requires AllDigits(s)
  {
    var low := s[|s| - 1] as int - '0' as int;
    if |s| == 1 then low else 10 * FromDigits(s[..|s| - 1]) + low
  }

  /** An integer in JSON (RFC 8259, section 6): an optional sign and digits without a leading zero. */
  predicate IntLiteral(s: string)
  {
    var d := if s != "" && s[0] == '-' then s[1..] else s;
    AllDigits(d) && (d[0] == '0' ==> |d| == 1)
  }

  function FromLiteral(s: string): (n: int)
    requires IntLiteral(s)
  {
    if s[0] == '-' then 0 - FromDigits(s[1..]) else FromDigits(s)
  }

  /** `json.loads` on the literals and integers; what it makes of any other text is the parameter `other`. */
  function Loads(s: string, other: string -> Option<Value>): (v: Option<Value>)
  {
    if s == "null" then Some(Nil)
    else if s == "true" then Some(Bool(true))
    else if s == "false" then Some(Bool(false))
    else if IntLiteral(s) then Some(Int(FromLiteral(s)))
    else other(s)
  }

  /** `_decode_form_value`. */
  function DecodeForm(raw: string, other: string -> Option<Value>): (v: Value)
  {
    if raw == "" then Str("")
    else match Loads(raw, other) case Some(v) => v case None => Str(raw)
  }

  /** `_to_form_string`. */
  function FormString(v: Value): (s: string)
  {
    match v
    case Bool(b) => if b then "true" else "false"
    case Int(n) => Decimal(n)
    case Str(s) => s
    case Other(t) => t
    case Nil => "None"
  }

  lemma {:induction false} DigitsRoundTrip(n: nat)
    ensures FromDigits(Digits(n)) == n
  {
    var s := Digits(n);
    assert AllDigits(s);
    if n >= 10 {
      DigitsRoundTrip(n / 10);
      assert s[..|s| - 1] == Digits(n / 10);
    }
  }

  /** The JSON reader gives back every integer that was printed. */
  lemma DecimalRoundTrip(n: int)
    ensures IntLiteral(Decimal(n)) && FromLiteral(Decimal(n)) == n
  {
    DigitsRoundTrip(if n < 0 then -n else n);
    if n < 0 {
      assert Decimal(n)[1..] == Digits(-n);
    }
  }

  /** The values the form gives back unchanged: integers, booleans, and text that is no JSON. */
  predicate Steady(v: Value, other: string -> Option<Value>)
  {
    match v
    case Bool(_) => true
    case Int(_) => true
    case Str(s) => s == "" || Loads(s, other) == None || Loads(s, other) == Some(v)
    case Other(t) => t != "" && Loads(t, other) == Some(v)
    case Nil => false
  }

  lemma SteadyIff(v: Value, other: string -> Option<Value>)
    requires v != Nil
    ensures DecodeForm(FormString(v), other) == v <==> Steady(v, other)
  {
    match v
    case Int(n) =>
      DecimalRoundTrip(n);
      NotAWord(Decimal(n));
    case _ =>
  }

  lemma NotAWord(s: string)
    requires IntLiteral(s)
    ensures s != "null" && s != "true" && s != "false"
  {
    var d := if s != "" && s[0] == '-' then s[1..] else s;
    assert '0' <= d[0] <= '9';
  }

  // ----- The store and the resolution chain -----

  /** A stored record: a packed value, the flag of an encrypted value, or bytes that do not unpack. */
  datatype Record = Packed(value: Value) | Flag | Junk(empty: bool)

  type Kv = map<string, Record>

  const FLAG_AS_INTEGER := 49

  /** What `unpackb` makes of the record; a failure counts as no value. The flag is the byte `1`. */
  function Unpacked(r: Record): (v: Value)
  {
    match r case Packed(v) => v case Flag => Int(FLAG_AS_INTEGER) case Junk(_) => Nil
  }

  function ValueAt(kv: Kv, key: string): (v: Value) { if key in kv then Unpacked(kv[key]) else Nil }

  predicate FlagAt(kv: Kv, key: string) { key in kv && !(kv[key].Junk? && kv[key].empty) }

  function Key(app: string, device: string, name: string): (k: string)
  {
    "kv:" + app + "/" + (device + "/" + name)
  }

  function EncKey(app: string, device: string, name: string): (k: string) { Key(app, device, name) + ":enc" }

  /** A customer-facing variable of the catalog; `Nil` is no default. */
  datatype Var = Var(name: string, writeOnly: bool, encrypted: bool, default: Value)

  datatype Resolved = Resolved(value: Option<string>, encrypted: bool, fromDefault: bool)

  /** The stored value that wins: the device's, else the public one; `Nil` if neither is set. */
  function Winner(kv: Kv, app: string, device: string, name: string): (v: Value)
  {
    var own := ValueAt(kv, Key(app, device, name));
    if own != Nil then own else ValueAt(kv, Key(app, "public", name))
  }

  /** `resolve_value`. */
  function Resolve(kv: Kv, app: string, device: string, v: Var): (r: Resolved)
  {
    var own, shared := Key(app, device, v.name), Key(app, "public", v.name);
    if ValueAt(kv, own) != Nil then
      Resolved(Some(FormString(ValueAt(kv, own))), FlagAt(kv, EncKey(app, device, v.name)), false)
    else if ValueAt(kv, shared) != Nil then
      Resolved(Some(FormString(ValueAt(kv, shared))), FlagAt(kv, EncKey(app, "public", v.name)), false)
    else if v.default != Nil then Resolved(Some(FormString(v.default)), false, true)
    else Resolved(None, false, false)
  }

  // ----- The page -----

  datatype Kind = Text | Checkbox | Radio | Button

  /** A control with its `data-` attributes; `original` is absent until the page or the script sets it. */
  datatype Field = Field(kind: Kind, name: string, value: string, checked: bool, original: Option<string>,
                         bound: bool, dirty: bool, writeOnly: bool, fromDefault: bool)

  type Payload = seq<(string, string)>

  /** A control for one variable. `shown` is what it displays, which may be clamped or blank. */
  function Control(v: Var, r: Resolved, shown: string): (f: Field)
  {
    Field(Text, v.name, shown, false, Some(if r.value.Some? then r.value.value else ""),
          false, false, v.writeOnly, r.fromDefault)
  }

  /** The page of a device. */
  function Render(kv: Kv, app: string, device: string, vars: seq<Var>, shown: seq<string>): (fs: seq<Field>)
    requires |shown| == |vars|
    ensures |fs| == |vars|
  {
    seq(|vars|, i requires 0 <= i < |vars| => Control(vars[i], Resolve(kv, app, device, vars[i]), shown[i]))
  }

  /** `_bindField`. */
  function Bound(f: Field): (r: Field)
  {
    if f.kind == Button || f.bound then f
    else f.(original := Some(if f.original.Some? then f.original.value else f.value), dirty := false, bound := true)
  }

  function BoundAll(fs: seq<Field>): (r: seq<Field>)
    ensures |r| == |fs|
  {
    seq(|fs|, i requires 0 <= i < |fs| => Bound(fs[i]))
  }

  /** The customer changes control `at`; the listeners of a bound control mark it dirty. */
  datatype Edit = Edit(at: nat, value: string, checked: bool)

  function Edited(f: Field, e: Edit): (r: Field)
  {
    f.(value := e.value, checked := e.checked, dirty := f.dirty || f.bound)
  }

  function AfterEdit(fs: seq<Field>, e: Edit): (r: seq<Field>)
    ensures |r| == |fs|
  {
    if e.at < |fs| then fs[e.at := Edited(fs[e.at], e)] else fs
  }

  function AfterEdits(fs: seq<Field>, es: seq<Edit>): (r: seq<Field>)
    ensures |r| == |fs|
  {
    if es == [] then fs else AfterEdit(AfterEdits(fs, es[..|es| - 1]), es[|es| - 1])
  }

  // ----- Serialising -----

  function OriginalOf(f: Field): (s: string) { if f.original.Some? then f.original.value else "" }

  /** The first checked radio control of a group. */
  function FirstChecked(form: seq<Field>, name: string): (r: Option<Field>)
  {
    if form == [] then None
    else if form[0].kind == Radio && form[0].name == name && form[0].checked then Some(form[0])
    else FirstChecked(form[1..], name)
  }

  /** What a control adds to the payload: nothing. Or it counts as seen, and perhaps has a value to send. */
  datatype Outcome = Skipped | Omitted | Sent(value: string)

  function OutcomeOf(form: seq<Field>, f: Field): (o: Outcome)
  {
    match f.kind
    case Button => Skipped
    case Radio =>
      var checked := FirstChecked(form, f.name);
      if checked.None? then Skipped
      else Sent(if checked.value.dirty then checked.value.value else OriginalOf(checked.value))
    case Checkbox =>
      Sent(if f.dirty then (if f.checked then "true" else "false") else OriginalOf(f))
    case Text =>
      if (f.writeOnly || f.fromDefault) && !f.dirty then Omitted
      else Sent(if f.dirty then f.value else OriginalOf(f))
  }

  datatype Progress = Progress(seen: set<string>, out: Payload)

  function Serialized(form: seq<Field>, n: nat): (p: Progress)
    requires n <= |form|
  {
    if n == 0 then Progress({}, []) else Step(form, Serialized(form, n - 1), form[n - 1])
  }

  function Step(form: seq<Field>, p: Progress, f: Field): (r: Progress)
  {
    if f.name == "" || f.name in p.seen then p
    else
      match OutcomeOf(form, f)
      case Skipped => p
      case Omitted => p.(seen := p.seen + {f.name})
      case Sent(v) => Progress(p.seen + {f.name}, p.out + [(f.name, v)])
  }

  // ----- Saving -----

  function Lookup(vars: seq<Var>, name: string): (v: Option<Var>)
  {
    if vars == [] then None else if vars[0].name == name then Some(vars[0]) else Lookup(vars[1..], name)
  }

  /** One posted field. */
  function Write(kv: Kv, app: string, device: string, vars: seq<Var>, item: (string, string),
                 other: string -> Option<Value>): (r: Kv)
  {
    var (name, raw) := item;
    if name == "" || '/' in name then kv
    else
      var put := kv[Key(app, device, name) := Packed(DecodeForm(raw, other))];
      var enc := EncKey(app, device, name);
      match Lookup(vars, name)
      case Some(v) => if v.encrypted then put[enc := Flag] else put - {enc}
      case None => if FlagAt(put, enc) then put[enc := Flag] else put
  }

  function Saved(kv: Kv, app: string, device: string, vars: seq<Var>, items: Payload,
                 other: string -> Option<Value>): (r: Kv)
  {
    if items == [] then kv
    else Write(Saved(kv, app, device, vars, items[..|items| - 1], other), app, device, vars, items[|items| - 1], other)
  }

  // ----- Keys -----

  /** Device slugs come from one path segment, variable names match `VAR_NAME_RE`. */
  predicate Slug(s: string) { '/' !in s }

  predicate VarName(s: string) { s != "" && '/' !in s && ':' !in s }

  predicate GoodNames(vars: seq<Var>)
  {
    (forall i | 0 <= i < |vars| :: VarName(vars[i].name))
    && forall i, j | 0 <= i < j < |vars| :: vars[i].name != vars[j].name
  }

  lemma SlotOf(d: string, n: string, e: string, m: string)
    requires Slug(d) && Slug(e) && d + "/" + n == e + "/" + m
    ensures d == e && n == m
  {
    var s := d + "/" + n;
    assert s[|d|] == '/' && s[|e|] == '/' && s[..|d|] == d && s[..|e|] == e;
    assert s[|d| + 1..] == n && s[|e| + 1..] == m;
  }

  /** When two records have the same key: a flag is kept under the name of its value with `:enc` behind. */
  lemma KeysMeetIff(app: string, d: string, n: string, e: string, m: string)
    requires Slug(d) && Slug(e)
    ensures Key(app, d, n) == Key(app, e, m) <==> d == e && n == m
    ensures EncKey(app, d, n) == EncKey(app, e, m) <==> d == e && n == m
    ensures EncKey(app, d, n) == Key(app, e, m) <==> d == e && m == n + ":enc"
  {
    hide Key, Slug;
    KeyIff(app, d, n, e, m);
    KeyIff(app, d, n + ":enc", e, m);
    EncIsKey(app, d, n);
    assert EncKey(app, d, n)[..|Key(app, d, n)|] == Key(app, d, n);
    assert EncKey(app, e, m)[..|Key(app, e, m)|] == Key(app, e, m);
  }

  lemma KeyIff(app: string, d: string, n: string, e: string, m: string)
    requires Slug(d) && Slug(e)
    ensures Key(app, d, n) == Key(app, e, m) <==> d == e && n == m
  {
    var p := "kv:" + app + "/";
    DropPrefix(p, d + "/" + n);
    DropPrefix(p, e + "/" + m);
    if d + "/" + n == e + "/" + m {
      SlotOf(d, n, e, m);
    }
  }

  lemma EncIsKey(app: string, d: string, n: string)
    ensures EncKey(app, d, n) == Key(app, d, n + ":enc")
  {
    var p := "kv:" + app + "/";
    Assoc(p, d + "/" + n, ":enc");
    Assoc(d + "/", n, ":enc");
  }

  /** Names of variables never end in `:enc`. */
  lemma VarApart(n: string, m: string)
    requires VarName(n) && VarName(m)
    ensures n != m + ":enc"
  {
    assert |m + ":enc"| > |m| && (m + ":enc")[|m|] == ':';
  }

  // ----- What a save writes -----

  /** The names the handler writes. */
  predicate Postable(n: string) { n != "" && '/' !in n }

  /** Neither key of a posted field is `k`. */
  predicate Spared(app: string, device: string, item: (string, string), k: string)
  {
    Postable(item.0) ==> k != Key(app, device, item.0) && k != EncKey(app, device, item.0)
  }

  lemma WriteElsewhere(kv: Kv, app: string, device: string, vars: seq<Var>, item: (string, string),
                       other: string -> Option<Value>, k: string)
    requires Spared(app, device, item, k)
    ensures SameAt(kv, Write(kv, app, device, vars, item, other), k)
  {
    hide Key, EncKey, DecodeForm, Lookup, FlagAt;
  }

  /** From field `i` on, a save leaves a key alone that is none of the fields'. */
  lemma {:induction false} SavedElsewhere(kv: Kv, app: string, device: string, vars: seq<Var>, items: Payload,
                                          other: string -> Option<Value>, i: nat, k: string)
    requires i <= |items| && forall j | i <= j < |items| :: Spared(app, device, items[j], k)
    ensures SameAt(Saved(kv, app, device, vars, items[..i], other), Saved(kv, app, device, vars, items, other), k)
  {
    if i == |items| {
      assert items[..i] == items;
    } else {
      hide Write, Spared;
      var p := |items| - 1;
      assert items[..p][..i] == items[..i];
      SavedElsewhere(kv, app, device, vars, items[..p], other, i, k);
      WriteElsewhere(Saved(kv, app, device, vars, items[..p], other), app, device, vars, items[p], other, k);
    }
  }

  lemma SavedStep(kv: Kv, app: string, device: string, vars: seq<Var>, items: Payload, other: string -> Option<Value>,
                  i: nat)
    requires i < |items|
    ensures Saved(kv, app, device, vars, items[..i + 1], other)
            == Write(Saved(kv, app, device, vars, items[..i], other), app, device, vars, items[i], other)
  {
    hide Write;
    assert items[..i + 1][..i] == items[..i];
  }

  lemma WriteOwn(kv: Kv, app: string, device: string, vars: seq<Var>, item: (string, string),
                 other: string -> Option<Value>)
    requires Postable(item.0)
    ensures ValueAt(Write(kv, app, device, vars, item, other), Key(app, device, item.0)) == DecodeForm(item.1, other)
  {
    hide Key, DecodeForm, Lookup, FlagAt;
    EncIsOther(app, device, item.0);
  }

  lemma EncIsOther(app: string, device: string, n: string)
    ensures Key(app, device, n) != EncKey(app, device, n)
  {
    assert |EncKey(app, device, n)| == |Key(app, device, n)| + 4;
  }

  /** The flag a write leaves beside its value: the catalog's word, or for a name it lacks, the flag there was. */
  lemma WriteFlag(kv: Kv, app: string, device: string, vars: seq<Var>, item: (string, string),
                  other: string -> Option<Value>)
    requires Postable(item.0)
    ensures var enc := EncKey(app, device, item.0);
            FlagAt(Write(kv, app, device, vars, item, other), enc) <==>
            match Lookup(vars, item.0) case Some(v) => v.encrypted case None => FlagAt(kv, enc)
  {
    hide Key, DecodeForm, Lookup, EncKey;
    EncIsOther(app, device, item.0);
  }

  /** A save leaves every record alone, whatever it posts, that belongs to another device, or to a name that is neither
      posted nor the flag of a posted one, nor has its own flag posted. */
  lemma SavedOther(kv: Kv, app: string, device: string, vars: seq<Var>, items: Payload, other: string -> Option<Value>,
                   d: string, n: string)
    requires Slug(device) && Slug(d)
    ensures var r := Saved(kv, app, device, vars, items, other);
            && ((d != device || forall j | 0 <= j < |items| && Postable(items[j].0) ::
                                  items[j].0 != n && n != items[j].0 + ":enc") ==>
                  SameAt(kv, r, Key(app, d, n)))
            && ((d != device || forall j | 0 <= j < |items| && Postable(items[j].0) ::
                                  items[j].0 != n && items[j].0 != n + ":enc") ==>
                  SameAt(kv, r, EncKey(app, d, n)))
  {
    hide Key, EncKey, Slug, Write, Postable, SameAt;
    forall j | 0 <= j < |items|
      ensures d != device || (items[j].0 != n && n != items[j].0 + ":enc") ==>
                Spared(app, device, items[j], Key(app, d, n))
      ensures d != device || (items[j].0 != n && items[j].0 != n + ":enc") ==>
                Spared(app, device, items[j], EncKey(app, d, n)) {
      KeysMeetIff(app, d, n, device, items[j].0);
      KeysMeetIff(app, device, items[j].0, d, n);
    }
    assert items[..0] == [];
    if d != device || forall j | 0 <= j < |items| && Postable(items[j].0) ::
                        items[j].0 != n && n != items[j].0 + ":enc" {
      SavedElsewhere(kv, app, device, vars, items, other, 0, Key(app, d, n));
    }
    if d != device || forall j | 0 <= j < |items| && Postable(items[j].0) ::
                        items[j].0 != n && items[j].0 != n + ":enc" {
      SavedElsewhere(kv, app, device, vars, items, other, 0, EncKey(app, d, n));
    }
  }

  /** A posted field is stored decoded, unless a later field has its name, or has it for the flag of its own. */
  lemma SavedItem(kv: Kv, app: string, device: string, vars: seq<Var>, items: Payload, other: string -> Option<Value>,
                  i: nat)
    requires Slug(device) && i < |items| && Postable(items[i].0)
    requires forall j | i < j < |items| && Postable(items[j].0) ::
               items[j].0 != items[i].0 && items[i].0 != items[j].0 + ":enc"
    ensures ValueAt(Saved(kv, app, device, vars, items, other), Key(app, device, items[i].0))
            == DecodeForm(items[i].1, other)
  {
    hide Key, EncKey, Slug, Write, Postable, DecodeForm, Saved;
    var k := Key(app, device, items[i].0);
    forall j | i + 1 <= j < |items| ensures Spared(app, device, items[j], k) {
      KeysMeetIff(app, device, items[j].0, device, items[i].0);
    }
    SavedStep(kv, app, device, vars, items, other, i);
    WriteOwn(Saved(kv, app, device, vars, items[..i], other), app, device, vars, items[i], other);
    SavedElsewhere(kv, app, device, vars, items, other, i + 1, k);
  }

  /** A posted field's encryption flag is the catalog's, or for a name it lacks, the one there was when its turn came,
      unless a later field has its name or poses as its flag. */
  lemma SavedFlag(kv: Kv, app: string, device: string, vars: seq<Var>, items: Payload, other: string -> Option<Value>,
                  i: nat)
    requires Slug(device) && i < |items| && Postable(items[i].0)
    requires forall j | i < j < |items| && Postable(items[j].0) ::
               items[j].0 != items[i].0 && items[j].0 != items[i].0 + ":enc"
    ensures var enc := EncKey(app, device, items[i].0);
            FlagAt(Saved(kv, app, device, vars, items, other), enc) <==>
            match Lookup(vars, items[i].0)
            case Some(v) => v.encrypted
            case None => FlagAt(Saved(kv, app, device, vars, items[..i], other), enc)
  {
    hide Key, EncKey, Slug, Write, Postable, Lookup, Saved;
    var k := EncKey(app, device, items[i].0);
    forall j | i + 1 <= j < |items| ensures Spared(app, device, items[j], k) {
      KeysMeetIff(app, device, items[i].0, device, items[j].0);
    }
    SavedStep(kv, app, device, vars, items, other, i);
    WriteFlag(Saved(kv, app, device, vars, items[..i], other), app, device, vars, items[i], other);
    SavedElsewhere(kv, app, device, vars, items, other, i + 1, k);
  }

  /** What a form posts: names of variables, each once. */
  predicate GoodItems(items: Payload)
  {
    (forall i | 0 <= i < |items| :: VarName(items[i].0))
    && forall i, j | 0 <= i < j < |items| :: items[i].0 != items[j].0
  }

  lemma GoodItemsApart(items: Payload, i: nat)
    requires GoodItems(items) && i < |items|
    ensures Postable(items[i].0)
    ensures forall j | i < j < |items| ::
              items[j].0 != items[i].0 && items[i].0 != items[j].0 + ":enc" && items[j].0 != items[i].0 + ":enc"
  {
    forall j | i < j < |items|
      ensures items[i].0 != items[j].0 + ":enc" && items[j].0 != items[i].0 + ":enc" {
      VarApart(items[i].0, items[j].0);
      VarApart(items[j].0, items[i].0);
    }
  }

  /** A form's save leaves the records of other devices and of variables it does not post alone. */
  lemma GoodItemsOther(kv: Kv, app: string, device: string, vars: seq<Var>, items: Payload,
                       other: string -> Option<Value>, d: string, n: string)
    requires Slug(device) && Slug(d) && VarName(n) && GoodItems(items)
    requires d != device || forall i | 0 <= i < |items| :: items[i].0 != n
    ensures var r := Saved(kv, app, device, vars, items, other);
            SameAt(kv, r, Key(app, d, n)) && SameAt(kv, r, EncKey(app, d, n))
  {
    hide Key, EncKey, Slug, VarName, SameAt, Saved, Postable;
    forall i | 0 <= i < |items| ensures n != items[i].0 + ":enc" && items[i].0 != n + ":enc" {
      VarApart(n, items[i].0);
      VarApart(items[i].0, n);
    }
    SavedOther(kv, app, device, vars, items, other, d, n);
  }

  // ----- What a form sends -----

  /** No radio buttons, every control named, and no name twice. */
  predicate Plain(form: seq<Field>)
  {
    (forall i | 0 <= i < |form| :: (form[i].kind == Text || form[i].kind == Checkbox) && VarName(form[i].name))
    && forall i, j | 0 <= i < j < |form| :: form[i].name != form[j].name
  }

  /** Every name sent is seen, and none is sent twice. */
  predicate SentOnce(p: Progress)
  {
    (forall k | 0 <= k < |p.out| :: p.out[k].0 in p.seen)
    && forall j, k | 0 <= j < k < |p.out| :: p.out[j].0 != p.out[k].0
  }

  /** In any form, with radio groups or without, no name is sent twice, and what is seen was sent or left out. */
  lemma {:induction false} SentNames(form: seq<Field>, n: nat)
    requires n <= |form|
    ensures SentOnce(Serialized(form, n))
    ensures forall x | x in Serialized(form, n).seen ::
              exists i | 0 <= i < n :: form[i].name == x && OutcomeOf(form, form[i]) != Skipped
  {
    hide OutcomeOf;
    if n > 0 {
      SentNames(form, n - 1);
      StepNames(form, Serialized(form, n - 1), form[n - 1]);
      var p := Serialized(form, n);
      forall x | x in p.seen ensures exists i | 0 <= i < n :: form[i].name == x && OutcomeOf(form, form[i]) != Skipped {
        if x in Serialized(form, n - 1).seen {
          var i :| 0 <= i < n - 1 && form[i].name == x && OutcomeOf(form, form[i]) != Skipped;
        }
      }
    }
  }

  lemma StepNames(form: seq<Field>, p: Progress, f: Field)
    requires SentOnce(p)
    ensures SentOnce(Step(form, p, f)) && p.seen <= Step(form, p, f).seen <= p.seen + {f.name}
    ensures forall item | item in p.out :: item in Step(form, p, f).out
    ensures forall item | item in Step(form, p, f).out :: item in p.out || item.0 == f.name
  {
    hide OutcomeOf;
  }

  /** The payload has the control's outcome under its name: what it sends, or nothing. */
  predicate SendsOutcome(form: seq<Field>, p: Progress, f: Field)
  {
    f.name in p.seen
    && match OutcomeOf(form, f)
       case Sent(v) => (f.name, v) in p.out
       case _ => forall item | item in p.out :: item.0 != f.name
  }

  /** The first control of its name that is not skipped. */
  predicate Decides(form: seq<Field>, i: nat)
    requires i < |form|
  {
    && form[i].name != "" && OutcomeOf(form, form[i]) != Skipped
    && forall j | 0 <= j < i && form[j].name == form[i].name :: OutcomeOf(form, form[j]) == Skipped
  }

  /** In any form, such a control decides what is sent under its name. */
  lemma {:induction false} FirstDecides(form: seq<Field>, n: nat, i: nat)
    requires n <= |form| && i < n && Decides(form, i)
    ensures SendsOutcome(form, Serialized(form, n), form[i])
  {
    hide OutcomeOf, Step;
    SentNames(form, n - 1);
    var p, f := Serialized(form, n - 1), form[n - 1];
    if i < n - 1 {
      FirstDecides(form, n - 1, i);
      StaysDecided(form, p, form[i], f);
    } else {
      StepSends(form, p, f);
    }
  }

  /** What was decided stays so when another control has its turn. */
  lemma StaysDecided(form: seq<Field>, p: Progress, f: Field, g: Field)
    requires SentOnce(p) && SendsOutcome(form, p, f)
    ensures SendsOutcome(form, Step(form, p, g), f)
  {
    hide OutcomeOf;
    StepNames(form, p, g);
  }

  /** Each control of a plain form sends its outcome, or nothing. */
  lemma SentExactly(form: seq<Field>, n: nat, i: nat)
    requires n <= |form| && i < n && Plain(form)
    ensures SendsOutcome(form, Serialized(form, n), form[i])
  {
    hide OutcomeOf, VarName, Step;
    PlainOutcome(form, i);
    assert VarName(form[i].name);
    NameParts(form[i].name);
    FirstDecides(form, n, i);
  }

  lemma NameParts(n: string)
    requires VarName(n)
    ensures n != "" && '/' !in n
  {}

  lemma StepSends(form: seq<Field>, p: Progress, f: Field)
    requires SentOnce(p) && f.name != "" && f.name !in p.seen && OutcomeOf(form, f) != Skipped
    ensures SendsOutcome(form, Step(form, p, f), f)
  {
    hide OutcomeOf;
    forall item | item in p.out ensures item.0 in p.seen {
      var k :| 0 <= k < |p.out| && p.out[k] == item;
    }
  }

  lemma PlainOutcome(form: seq<Field>, i: nat)
    requires i < |form| && Plain(form)
    ensures OutcomeOf(form, form[i]) != Skipped
  {}

  lemma SentGood(form: seq<Field>)
    requires Plain(form)
    ensures GoodItems(Serialized(form, |form|).out)
  {
    hide VarName, Serialized;
    SentNames(form, |form|);
  }

  // ----- A load-edit-save round -----

  /** The form when the customer presses save. */
  function FormAtSave(kv: Kv, app: string, device: string, vars: seq<Var>, shown: seq<string>, edits: seq<Edit>)
    : (form: seq<Field>)
    requires |shown| == |vars|
    ensures |form| == |vars|
  {
    AfterEdits(BoundAll(Render(kv, app, device, vars, shown)), edits)
  }

  function LoadEditSave(kv: Kv, app: string, device: string, vars: seq<Var>, shown: seq<string>, edits: seq<Edit>,
                        other: string -> Option<Value>): (after: Kv)
    requires |shown| == |vars|
  {
    Saved(kv, app, device, vars, Serialized(FormAtSave(kv, app, device, vars, shown, edits), |vars|).out, other)
  }

  /** What the customer last put into control `i`, if anything. */
  function LastEdit(es: seq<Edit>, i: nat): (r: Option<string>)
  {
    if es == [] then None
    else if es[|es| - 1].at == i then Some(es[|es| - 1].value)
    else LastEdit(es[..|es| - 1], i)
  }

  lemma {:induction false} EditsLeave(fs: seq<Field>, es: seq<Edit>, i: nat)
    requires i < |fs| && fs[i].bound && !fs[i].dirty
    ensures var f := AfterEdits(fs, es)[i];
            match LastEdit(es, i)
            case None => f == fs[i]
            case Some(x) => f == fs[i].(value := x, checked := f.checked, dirty := true)
  {
    if es != [] {
      EditsLeave(fs, es[..|es| - 1], i);
    }
  }

  /** The text a control gives back while it is clean. */
  function Baseline(kv: Kv, app: string, device: string, v: Var): (s: string)
  {
    var r := Resolve(kv, app, device, v);
    if r.value.Some? then r.value.value else ""
  }

  /** Whether an untouched control leaves its variable out of the save. */
  predicate LeftOut(kv: Kv, app: string, device: string, v: Var)
  {
    v.writeOnly || Resolve(kv, app, device, v).fromDefault
  }

  lemma FieldAtSave(kv: Kv, app: string, device: string, vars: seq<Var>, shown: seq<string>, edits: seq<Edit>, i: nat)
    requires |shown| == |vars| && i < |vars|
    ensures var form := FormAtSave(kv, app, device, vars, shown, edits);
            && form[i].kind == Text && form[i].name == vars[i].name
            && OutcomeOf(form, form[i])
               == match LastEdit(edits, i)
                  case Some(x) => Sent(x)
                  case None =>
                    if LeftOut(kv, app, device, vars[i]) then Omitted else Sent(Baseline(kv, app, device, vars[i]))
  {
    hide Resolve;
    var fs := BoundAll(Render(kv, app, device, vars, shown));
    EditsLeave(fs, edits, i);
  }

  lemma PlainAtSave(kv: Kv, app: string, device: string, vars: seq<Var>, shown: seq<string>, edits: seq<Edit>)
    requires |shown| == |vars| && GoodNames(vars)
    ensures Plain(FormAtSave(kv, app, device, vars, shown, edits))
  {
    hide VarName, FormAtSave, OutcomeOf, LeftOut, Baseline;
    var form := FormAtSave(kv, app, device, vars, shown, edits);
    forall i | 0 <= i < |form| ensures form[i].kind == Text && form[i].name == vars[i].name {
      FieldAtSave(kv, app, device, vars, shown, edits, i);
    }
  }

  /** What a round does to one variable: an edit is stored decoded; an untouched control that is write-only, or
      shows the catalog's default, writes nothing; any other untouched control stores the text it was loaded with. */
  lemma RoundWrites(kv: Kv, app: string, device: string, vars: seq<Var>, shown: seq<string>, edits: seq<Edit>,
                    other: string -> Option<Value>, i: nat)
    requires |shown| == |vars| && GoodNames(vars) && Slug(device) && i < |vars|
    ensures var after := LoadEditSave(kv, app, device, vars, shown, edits, other);
            var v := vars[i];
            match LastEdit(edits, i)
            case Some(x) => ValueAt(after, Key(app, device, v.name)) == DecodeForm(x, other)
            case None =>
              if LeftOut(kv, app, device, v)
              then SameAt(kv, after, Key(app, device, v.name)) && SameAt(kv, after, EncKey(app, device, v.name))
              else ValueAt(after, Key(app, device, v.name)) == DecodeForm(Baseline(kv, app, device, v), other)
  {
    hide Key, EncKey, VarName, Slug, OutcomeOf, LeftOut, Baseline, FormAtSave, Serialized, DecodeForm, Saved, ValueAt,
         SameAt, LastEdit;
    var form := FormAtSave(kv, app, device, vars, shown, edits);
    var out := Serialized(form, |form|).out;
    PlainAtSave(kv, app, device, vars, shown, edits);
    FieldAtSave(kv, app, device, vars, shown, edits, i);
    SentExactly(form, |form|, i);
    SentGood(form);
    if OutcomeOf(form, form[i]).Sent? {
      var k :| 0 <= k < |out| && out[k] == (form[i].name, OutcomeOf(form, form[i]).value);
      GoodItemsApart(out, k);
      SavedItem(kv, app, device, vars, out, other, k);
    } else {
      forall k | 0 <= k < |out| ensures out[k].0 != vars[i].name {
        assert out[k] in out;
      }
      GoodItemsOther(kv, app, device, vars, out, other, device, vars[i].name);
    }
  }

  lemma {:induction false} LookupAt(vars: seq<Var>, i: nat)
    requires i < |vars| && GoodNames(vars)
    ensures Lookup(vars, vars[i].name) == Some(vars[i])
  {
    hide VarName;
    if i > 0 {
      LookupAt(vars[1..], i - 1);
    }
  }

  /** Whatever a round writes for a variable, it is flagged encrypted exactly if the catalog says so. */
  lemma RoundFlags(kv: Kv, app: string, device: string, vars: seq<Var>, shown: seq<string>, edits: seq<Edit>,
                   other: string -> Option<Value>, i: nat)
    requires |shown| == |vars| && GoodNames(vars) && Slug(device) && i < |vars|
    requires LastEdit(edits, i).Some? || !LeftOut(kv, app, device, vars[i])
    ensures var after := LoadEditSave(kv, app, device, vars, shown, edits, other);
            FlagAt(after, EncKey(app, device, vars[i].name)) <==> vars[i].encrypted
  {
    hide Key, EncKey, VarName, Slug, OutcomeOf, LeftOut, Baseline, FormAtSave, Serialized, DecodeForm, Saved, FlagAt,
         LastEdit, Lookup;
    var form := FormAtSave(kv, app, device, vars, shown, edits);
    var out := Serialized(form, |form|).out;
    PlainAtSave(kv, app, device, vars, shown, edits);
    FieldAtSave(kv, app, device, vars, shown, edits, i);
    SentExactly(form, |form|, i);
    SentGood(form);
    var k :| 0 <= k < |out| && out[k] == (form[i].name, OutcomeOf(form, form[i]).value);
    GoodItemsApart(out, k);
    SavedFlag(kv, app, device, vars, out, other, k);
    LookupAt(vars, i);
  }

  /** A round touches the records of this device and of variables on the page only. */
  lemma RoundLeaves(kv: Kv, app: string, device: string, vars: seq<Var>, shown: seq<string>, edits: seq<Edit>,
                    other: string -> Option<Value>, d: string, n: string)
    requires |shown| == |vars| && GoodNames(vars) && Slug(device) && Slug(d) && VarName(n)
    requires d != device || forall v | v in vars :: v.name != n
    ensures var after := LoadEditSave(kv, app, device, vars, shown, edits, other);
            SameAt(kv, after, Key(app, d, n)) && SameAt(kv, after, EncKey(app, d, n))
  {
    hide Key, EncKey, VarName, Slug, OutcomeOf, LeftOut, Baseline, FormAtSave, Serialized, DecodeForm, Saved;
    var form := FormAtSave(kv, app, device, vars, shown, edits);
    var p := Serialized(form, |form|);
    PlainAtSave(kv, app, device, vars, shown, edits);
    SentGood(form);
    SentNames(form, |form|);
    if d == device {
      forall k | 0 <= k < |p.out| ensures p.out[k].0 != n {
        assert p.out[k].0 in p.seen;
        var i :| 0 <= i < |form| && form[i].name == p.out[k].0;
        FieldAtSave(kv, app, device, vars, shown, edits, i);
        assert vars[i] in vars;
      }
    }
    GoodItemsOther(kv, app, device, vars, p.out, other, d, n);
  }

  lemma PublicLeft(kv: Kv, app: string, device: string, vars: seq<Var>, shown: seq<string>, edits: seq<Edit>,
                   other: string -> Option<Value>, n: string)
    requires |shown| == |vars| && GoodNames(vars) && Slug(device) && VarName(n) && device != "public"
    ensures var after := LoadEditSave(kv, app, device, vars, shown, edits, other);
            SameAt(kv, after, Key(app, "public", n)) && SameAt(kv, after, EncKey(app, "public", n))
  {
    hide Key, EncKey, VarName, LoadEditSave, GoodNames;
    RoundLeaves(kv, app, device, vars, shown, edits, other, "public", n);
  }

  /** An untouched write-only variable, and one that shows the catalog's default, resolve as before. */
  lemma LeftOutKeeps(kv: Kv, app: string, device: string, vars: seq<Var>, shown: seq<string>, edits: seq<Edit>,
                     other: string -> Option<Value>, i: nat)
    requires |shown| == |vars| && GoodNames(vars) && Slug(device) && i < |vars|
    requires LastEdit(edits, i) == None && LeftOut(kv, app, device, vars[i])
    ensures var after := LoadEditSave(kv, app, device, vars, shown, edits, other);
            Resolve(after, app, device, vars[i]) == Resolve(kv, app, device, vars[i])
  {
    hide Key, EncKey, VarName, LoadEditSave, FormString, LastEdit;
    RoundWrites(kv, app, device, vars, shown, edits, other, i);
    if device != "public" {
      PublicLeft(kv, app, device, vars, shown, edits, other, vars[i].name);
    }
  }

  /** An untouched control whose stored value is `v` keeps it exactly when `v` survives its own text, or that text
      reads as null and the public layer holds the same `v`. */
  lemma RoundKeepsIff(kv: Kv, app: string, device: string, vars: seq<Var>, shown: seq<string>, edits: seq<Edit>,
                      other: string -> Option<Value>, i: nat)
    requires |shown| == |vars| && GoodNames(vars) && Slug(device) && i < |vars|
    requires LastEdit(edits, i) == None && !vars[i].writeOnly
    requires Winner(kv, app, device, vars[i].name) != Nil
    ensures var v := Winner(kv, app, device, vars[i].name);
            var after := LoadEditSave(kv, app, device, vars, shown, edits, other);
            Winner(after, app, device, vars[i].name) == v
            <==> Steady(v, other)
                 || (DecodeForm(FormString(v), other) == Nil && device != "public"
                     && ValueAt(kv, Key(app, "public", vars[i].name)) == v)
  {
    hide Key, EncKey, VarName, LoadEditSave, FormString, LastEdit, DecodeForm, Steady;
    var v := Winner(kv, app, device, vars[i].name);
    RoundWrites(kv, app, device, vars, shown, edits, other, i);
    if device != "public" {
      PublicLeft(kv, app, device, vars, shown, edits, other, vars[i].name);
    }
    SteadyIff(v, other);
    assert Baseline(kv, app, device, vars[i]) == FormString(v);
  }

  /** Integers, booleans and text that is no JSON: the kinds a form always gives back. */
  predicate Kept(v: Value, other: string -> Option<Value>)
  {
    v.Bool? || v.Int? || (v.Str? && Loads(v.s, other).None?)
  }

  datatype Visit = Visit(vars: seq<Var>, shown: seq<string>, edits: seq<Edit>)

  predicate Fits(w: Visit) { |w.shown| == |w.vars| }

  function Visits(kv: Kv, app: string, device: string, vs: seq<Visit>, other: string -> Option<Value>): (after: Kv)
    requires forall w | w in vs :: Fits(w)
  {
    if vs == [] then kv
    else
      var w := vs[|vs| - 1];
      assert w in vs && Fits(w);
      LoadEditSave(Visits(kv, app, device, vs[..|vs| - 1], other), app, device, w.vars, w.shown, w.edits, other)
  }

  /** The page does not show the variable, or shows it and the customer leaves it alone. */
  predicate Spares(w: Visit, name: string)
  {
    Fits(w) && GoodNames(w.vars)
    && forall i | 0 <= i < |w.vars| && w.vars[i].name == name :: LastEdit(w.edits, i) == None
  }

  /** Through any number of rounds, on any catalogs, a value of those kinds stays while nobody edits it, whether it
      came from the device or the public layer and whatever its control displayed. */
  lemma {:induction false} VisitsKeep(kv: Kv, app: string, device: string, vs: seq<Visit>,
                                      other: string -> Option<Value>, name: string)
    requires Slug(device) && VarName(name) && forall w | w in vs :: Fits(w) && Spares(w, name)
    requires Kept(Winner(kv, app, device, name), other)
    ensures Winner(Visits(kv, app, device, vs, other), app, device, name) == Winner(kv, app, device, name)
  {
    hide Winner, Kept, VarName, Slug, LoadEditSave;
    if vs != [] {
      var front, w := vs[..|vs| - 1], vs[|vs| - 1];
      assert w in vs && forall x | x in front :: x in vs;
      VisitsKeep(kv, app, device, front, other, name);
      VisitKeeps(Visits(kv, app, device, front, other), app, device, w, other, name);
    }
  }

  lemma VisitKeeps(kv: Kv, app: string, device: string, w: Visit, other: string -> Option<Value>, name: string)
    requires Slug(device) && VarName(name) && Spares(w, name) && Kept(Winner(kv, app, device, name), other)
    ensures var after := LoadEditSave(kv, app, device, w.vars, w.shown, w.edits, other);
            Winner(after, app, device, name) == Winner(kv, app, device, name)
  {
    hide VarName, LoadEditSave, Key, EncKey, LastEdit, GoodNames, Resolve, Loads, DecodeForm, FormString;
    if i :| 0 <= i < |w.vars| && w.vars[i].name == name {
      if w.vars[i].writeOnly {
        RoundWrites(kv, app, device, w.vars, w.shown, w.edits, other, i);
        if device != "public" {
          PublicLeft(kv, app, device, w.vars, w.shown, w.edits, other, name);
        }
      } else {
        RoundKeepsIff(kv, app, device, w.vars, w.shown, w.edits, other, i);
      }
    } else {
      RoundLeaves(kv, app, device, w.vars, w.shown, w.edits, other, device, name);
      if device != "public" {
        PublicLeft(kv, app, device, w.vars, w.shown, w.edits, other, name);
      }
    }
  }

  // ----- What a round does not keep -----

  /** An untouched variable with no value anywhere and no default comes back as the empty text. */
  lemma UnsetBecomesEmpty(kv: Kv, app: string, device: string, vars: seq<Var>, shown: seq<string>, edits: seq<Edit>,
                          other: string -> Option<Value>, i: nat)
    requires |shown| == |vars| && GoodNames(vars) && Slug(device) && i < |vars|
    requires LastEdit(edits, i) == None && !vars[i].writeOnly
    requires Resolve(kv, app, device, vars[i]) == Resolved(None, false, false)
    ensures var after := LoadEditSave(kv, app, device, vars, shown, edits, other);
            Winner(after, app, device, vars[i].name) == Str("")
  {
    hide Key, EncKey, VarName, LoadEditSave, LastEdit;
    RoundWrites(kv, app, device, vars, shown, edits, other, i);
  }

  /** The text `null`, stored for the device alone, is lost by a save that does not touch it. */
  lemma NullTextIsLost(app: string, other: string -> Option<Value>)
    ensures var v := Var("x", false, false, Nil);
            var kv: Kv := map[Key(app, "d", "x") := Packed(Str("null"))];
            && Winner(kv, app, "d", "x") == Str("null")
            && Winner(LoadEditSave(kv, app, "d", [v], ["null"], [], other), app, "d", "x") == Nil
  {
    var v := Var("x", false, false, Nil);
    var kv: Kv := map[Key(app, "d", "x") := Packed(Str("null"))];
    KeysMeetIff(app, "d", "x", "public", "x");
    RoundWrites(kv, app, "d", [v], ["null"], [], other, 0);
    PublicLeft(kv, app, "d", [v], ["null"], [], other, "x");
  }

  /** In any form, among the controls that nobody touched and that are write-only or show the catalog's default: one
      that decides for its name is left out exactly if it is neither a check box nor a radio button. Then nothing is
      sent under its name. A check box sends the text it was loaded with; a radio group sends what its first checked
      button says, which is the text it was loaded with unless that button was touched. */
  lemma LeftOutIff(form: seq<Field>, i: nat)
    requires i < |form| && Decides(form, i) && !form[i].dirty && (form[i].writeOnly || form[i].fromDefault)
    ensures var f, out := form[i], Serialized(form, |form|).out;
            && (OutcomeOf(form, f) == Omitted <==> f.kind == Text)
            && (f.kind == Text ==> forall item | item in out :: item.0 != f.name)
            && (f.kind == Checkbox ==> (f.name, OriginalOf(f)) in out)
            && (f.kind == Radio ==>
                  FirstChecked(form, f.name).Some?
                  && var c := FirstChecked(form, f.name).value;
                     (f.name, if c.dirty then c.value else OriginalOf(c)) in out)
  {
    hide FirstChecked, Serialized;
    FirstDecides(form, |form|, i);
  }

  /** The same for a page of one control: only text goes unsent. */
  lemma RadioIgnoresRules(f: Field)
    requires !f.dirty && f.name != "" && (f.writeOnly || f.fromDefault) && f.kind != Button
    requires f.kind == Radio ==> f.checked
    ensures Serialized([f], 1).out == if f.kind == Text then [] else [(f.name, OriginalOf(f))]
  {
    assert Serialized([f], 0) == Progress({}, []);
  }
}
