/** What each control of a form sends and what the page shows, read off the form and the store alone. */
module FormRules {
  import opened Bytes
  import opened Form
  import opened FormPage

  // ----- Keys and texts -----

  lemma KeysAre(app: string, device: string, name: string)
    ensures Key(app, device, name) == "kv:" + app + "/" + device + "/" + name
    ensures EncKey(app, device, name) == "kv:" + app + "/" + device + "/" + name + ":enc"
  {
    var p := "kv:" + app + "/";
    Assoc(p, device + "/", name);
    assert device + "/" + name == (device + "/") + name;
    assert p + device + "/" + name == p + (device + "/") + name by {
      Assoc(p, device, "/");
    }
  }

  /** A number is printed in base ten, and so read. */
  lemma DigitsSnoc(n: nat, d: nat)
    requires d < 10
    ensures Digits(d) == ["0123456789"[d]]
    ensures n > 0 ==> Digits(10 * n + d) == Digits(n) + ["0123456789"[d]]
  {}

  lemma NumbersAre()
    ensures Decimal(-120) == "-120" && FromLiteral("-120") == -120 && Decimal(0) == "0"
  {
    hide Digits, FromLiteral, IntLiteral;
    DigitsSnoc(0, 0);
    DigitsSnoc(0, 1);
    DigitsSnoc(1, 2);
    DigitsSnoc(12, 0);
    assert "-" + ("1" + "2" + "0") == "-120";
    DecimalRoundTrip(-120);
  }

  lemma MinusZero()
    ensures IntLiteral("-0") && FromLiteral("-0") == 0
  {
    assert "-0"[1..] == "0";
  }

  /** What the form makes of the words of JSON, of numbers, and of what looks like one and is none. */
  lemma WordsAre(other: string -> Option<Value>)
    ensures DecodeForm("", other) == Str("") && DecodeForm("null", other) == Nil
    ensures DecodeForm("true", other) == Bool(true) && DecodeForm("false", other) == Bool(false)
    ensures DecodeForm("-120", other) == Int(-120) && DecodeForm("-0", other) == Int(0)
    ensures other("007") == None ==> DecodeForm("007", other) == Str("007")
    ensures FormString(Bool(true)) == "true" && FormString(Bool(false)) == "false" && FormString(Nil) == "None"
    ensures FormString(Int(-120)) == "-120" && FormString(Int(0)) == "0"
  {
    hide Decimal, FromLiteral;
    NumbersAre();
    MinusZero();
    DecimalRoundTrip(-120);
  }

  // ----- What the page shows -----

  /** A record that unpacks to something: a value that is not null, or a flag, which reads as a number. */
  predicate HasValue(kv: Kv, key: string) { key in kv && (kv[key].Flag? || (kv[key].Packed? && kv[key].value != Nil)) }

  function TextAt(kv: Kv, key: string): (s: string)
    requires HasValue(kv, key)
  {
    if kv[key].Flag? then "49" else FormString(kv[key].value)
  }

  /** A flag counts as soon as its record is not empty. */
  predicate Flagged(kv: Kv, key: string) { key in kv && kv[key] != Junk(true) }

  /** The device's own record decides if it has a value, then the public one, then the catalog; each with its own text,
      and the records with the flags beside them. */
  lemma ResolveIs(kv: Kv, app: string, device: string, v: Var)
    ensures var own := "kv:" + app + "/" + device + "/" + v.name;
            var shared := "kv:" + app + "/" + "public" + "/" + v.name;
            Resolve(kv, app, device, v)
            == if HasValue(kv, own) then Resolved(Some(TextAt(kv, own)), Flagged(kv, own + ":enc"), false)
               else if HasValue(kv, shared) then Resolved(Some(TextAt(kv, shared)), Flagged(kv, shared + ":enc"), false)
               else if v.default != Nil then Resolved(Some(FormString(v.default)), false, true)
               else Resolved(None, false, false)
  {
    hide Key, EncKey, FormString;
    KeysAre(app, device, v.name);
    KeysAre(app, "public", v.name);
    FlagText();
  }

  lemma FlagText()
    ensures FormString(Int(49)) == "49"
  {}

  // ----- Binding -----

  /** Binding leaves a control clean, with the text it displays for a baseline if it came without one. */
  lemma BoundIs(f: Field)
    ensures f.kind != Button && !f.bound ==>
              Bound(f) == f.(original := Some(if f.original.Some? then f.original.value else f.value),
                             dirty := false, bound := true)
    ensures f.kind == Button || f.bound ==> Bound(f) == f
  {}

  function UnboundSet(fs: seq<Field>, n: nat): (s: set<nat>)
    requires n <= |fs|
  {
    set i: nat | i < n && fs[i].kind != Button && !fs[i].bound
  }

  /** The number newly bound is that of the controls that were managed and not bound; a second pass binds none. */
  lemma {:induction false} UnboundIs(fs: seq<Field>, n: nat)
    requires n <= |fs|
    ensures Unbound(fs, n) == |UnboundSet(fs, n)| && Unbound(BoundAll(fs), n) == 0
  {
    if n > 0 {
      UnboundIs(fs, n - 1);
      var now := fs[n - 1].kind != Button && !fs[n - 1].bound;
      assert UnboundSet(fs, n) == UnboundSet(fs, n - 1) + if now then {n - 1} else {};
    } else {
      assert UnboundSet(fs, 0) == {};
    }
  }

  // ----- What a form sends -----

  predicate IsChecked(f: Field, name: string) { f.kind == Radio && f.name == name && f.checked }

  /** The checked button of a group is the first of its buttons that is checked. */
  lemma {:induction false} FirstCheckedIs(form: seq<Field>, name: string)
    ensures match FirstChecked(form, name)
            case None => forall i | 0 <= i < |form| :: !IsChecked(form[i], name)
            case Some(f) => IsFirstChecked(form, name, f)
  {
    if form != [] && !IsChecked(form[0], name) {
      var rest := form[1..];
      FirstCheckedIs(rest, name);
      assert forall i | 0 < i < |form| :: form[i] == rest[i - 1];
      if FirstChecked(rest, name).Some? {
        var i :| 0 <= i < |rest| && rest[i] == FirstChecked(rest, name).value && IsChecked(rest[i], name)
                 && forall j | 0 <= j < i :: !IsChecked(rest[j], name);
        assert form[i + 1] == rest[i];
      }
    }
  }

  ghost predicate IsFirstChecked(form: seq<Field>, name: string, f: Field)
  {
    exists i | 0 <= i < |form| :: form[i] == f && IsChecked(form[i], name)
                                  && forall j | 0 <= j < i :: !IsChecked(form[j], name)
  }

  /** A control speaks for its name: a named input, and of radio buttons one of a group with a checked one. */
  predicate Speaks(form: seq<Field>, f: Field)
  {
    f.name != "" && f.kind != Button && (f.kind == Radio ==> exists c | c in form :: IsChecked(c, f.name))
  }

  lemma SpeaksIff(form: seq<Field>, f: Field)
    ensures Speaks(form, f) <==> f.name != "" && OutcomeOf(form, f) != Skipped
  {
    hide FirstChecked, IsChecked;
    FirstCheckedIs(form, f.name);
    if c :| c in form && IsChecked(c, f.name) {
      var i :| 0 <= i < |form| && form[i] == c;
    }
  }

  /** The first control that speaks for its name. */
  predicate SpeaksFirst(form: seq<Field>, i: nat)
    requires i < |form|
  {
    Speaks(form, form[i]) && forall j | 0 <= j < i && form[j].name == form[i].name :: !Speaks(form, form[j])
  }

  /** The text a control was loaded with. */
  function Loaded(f: Field): (s: string) { match f.original case Some(s) => s case None => "" }

  /**
   What is sent under a name, from the first control that speaks for it: a touched text, a touched check box as a word,
   the value of the group's checked button if that was touched; otherwise the text it was loaded with, or nothing for a
   text control that is write-only or shows the catalog's default. No name is sent twice.
   */
  lemma SentIs(form: seq<Field>, i: nat)
    requires i < |form| && SpeaksFirst(form, i)
    ensures var f, out := form[i], Serialized(form, |form|).out;
            match f.kind
            case Text =>
              if f.dirty then (f.name, f.value) in out
              else if f.writeOnly || f.fromDefault then forall item | item in out :: item.0 != f.name
              else (f.name, Loaded(f)) in out
            case Checkbox =>
              (f.name, if f.dirty then (if f.checked then "true" else "false") else Loaded(f)) in out
            case Radio =>
              exists c | c in form :: IsFirstChecked(form, f.name, c)
                                      && (f.name, if c.dirty then c.value else Loaded(c)) in out
            case Button => false
  {
    hide FirstChecked, IsFirstChecked, IsChecked, Serialized;
    var f := form[i];
    forall j | 0 <= j <= i
      ensures Speaks(form, form[j]) <==> form[j].name != "" && OutcomeOf(form, form[j]) != Skipped {
      SpeaksIff(form, form[j]);
    }
    FirstDecides(form, |form|, i);
    if f.kind == Radio {
      FirstCheckedIs(form, f.name);
      FirstIsIn(form, f.name, FirstChecked(form, f.name).value);
    }
  }

  lemma FirstIsIn(form: seq<Field>, name: string, c: Field)
    requires IsFirstChecked(form, name, c)
    ensures c in form
  {}

  /** Every name sent is that of a control that speaks for it. */
  lemma OnlySpoken(form: seq<Field>, k: nat)
    requires k < |Serialized(form, |form|).out|
    ensures exists i | 0 <= i < |form| :: SpeaksFirst(form, i) && form[i].name == Serialized(form, |form|).out[k].0
  {
    hide Serialized, OutcomeOf, Speaks;
    var p := Serialized(form, |form|);
    SentNames(form, |form|);
    var i :| 0 <= i < |form| && form[i].name == p.out[k].0 && OutcomeOf(form, form[i]) != Skipped;
    NamesNotEmpty(form, |form|, k);
    SpeaksIff(form, form[i]);
    SomeoneFirst(form, i);
  }

  lemma {:induction false} SomeoneFirst(form: seq<Field>, i: nat)
    requires i < |form| && Speaks(form, form[i])
    ensures exists j | 0 <= j < |form| :: SpeaksFirst(form, j) && form[j].name == form[i].name
  {
    hide Speaks;
    if !SpeaksFirst(form, i) {
      var j :| 0 <= j < i && form[j].name == form[i].name && Speaks(form, form[j]);
      SomeoneFirst(form, j);
    }
  }

  lemma {:induction false} NamesNotEmpty(form: seq<Field>, n: nat, k: nat)
    requires n <= |form| && k < |Serialized(form, n).out|
    ensures Serialized(form, n).out[k].0 != ""
  {
    hide OutcomeOf;
    if n > 0 && k < |Serialized(form, n - 1).out| {
      NamesNotEmpty(form, n - 1, k);
    }
  }

  /** What is sent comes in the order of the controls: each adds behind what those before it sent. */
  lemma {:induction false} SentInOrder(form: seq<Field>, m: nat, n: nat)
    requires m <= n <= |form|
    ensures Serialized(form, m).out <= Serialized(form, n).out
    ensures |Serialized(form, n).out| <= |Serialized(form, m).out| + (n - m)
  {
    hide OutcomeOf;
    if m < n {
      SentInOrder(form, m, n - 1);
    }
  }
}
