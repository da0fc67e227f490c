/** What a backup document looks like, and which documents are taken, apart from the functions that write and read. */
module BackupDocument {
  import opened Bytes
  import Base64
  import opened BackupFormat

  // ----- Looking up -----

  /** The first entry under `key` holds `v`. */
  ghost predicate Holds<T>(d: Dict<T>, key: string, v: T)
  {
    exists i | 0 <= i < |d| :: d[i] == (key, v) && forall j | 0 <= j < i :: d[j].0 != key
  }

  lemma {:induction false} GetIff<T>(d: Dict<T>, key: string, v: T)
    ensures Get(d, key) == Some(v) <==> Holds(d, key, v)
    ensures Get(d, key) == None <==> forall i | 0 <= i < |d| :: d[i].0 != key
  {
    if d != [] && d[0].0 != key {
      var r := d[1..];
      GetIff(r, key, v);
      assert forall i | 0 <= i < |r| :: r[i] == d[i + 1];
      assert forall i | 0 < i < |d| :: d[i] == r[i - 1];
      if Holds(r, key, v) {
        var i :| 0 <= i < |r| && r[i] == (key, v) && forall j | 0 <= j < i :: r[j].0 != key;
        assert d[i + 1] == (key, v) && forall j | 0 <= j < i + 1 :: d[j].0 != key;
      }
      if Holds(d, key, v) {
        var i :| 0 <= i < |d| && d[i] == (key, v) && forall j | 0 <= j < i :: d[j].0 != key;
        assert r[i - 1] == (key, v) && forall j | 0 <= j < i - 1 :: r[j].0 != key;
      }
    }
  }

  /** What Python takes for false. */
  lemma FalsyIff(j: Json)
    ensures !Truthy(j) <==>
            || j == Null || j == Boolean(false) || j == Integer(0) || j == Real("0.0") || j == Real("-0.0")
            || j == Text("") || j == List([]) || j == Object([])
  {}

  // ----- Which documents are taken -----

  predicate GoodBytes(j: Json) { j.Text? && Base64.Decode(j.s).Some? }

  predicate GoodClient(j: Json) { j.Object? && Get(j.fields, "secret").Some? }

  predicate GoodKv(j: Json)
  {
    j.Object? && Get(j.fields, "value").Some? && GoodBytes(Get(j.fields, "value").value)
  }

  predicate GoodEntry(j: Json)
  {
    && j.Object? && Get(j.fields, "id").Some? && Get(j.fields, "fields").Some?
    && Get(j.fields, "fields").value.Object?
    && var fields := Get(j.fields, "fields").value.fields; forall i | 0 <= i < |fields| :: GoodBytes(fields[i].1)
  }

  predicate GoodStream(j: Json) { j.List? && forall i | 0 <= i < |j.items| :: GoodEntry(j.items[i]) }

  /** A section may be left out, or be null or empty of any kind. */
  predicate GoodSection(data: Dict<Json>, name: string, good: Json -> bool)
  {
    match Get(data, name)
    case None => true
    case Some(j) => !Truthy(j) || (j.Object? && forall i | 0 <= i < |j.fields| :: good(j.fields[i].1))
  }

  predicate GoodLog(j: Option<Json>) { j in {None, Some(Null)} || GoodStream(j.value) }

  predicate GoodData(data: Dict<Json>)
  {
    && GoodSection(data, "clients", GoodClient)
    && GoodSection(data, "admin_acls", (j: Json) => j.Object?)
    && GoodSection(data, "kv", GoodKv)
    && GoodSection(data, "queues", GoodStream)
    && GoodLog(Get(data, "activity_log"))
    && GoodSection(data, "device_to_app", _ => true)
  }

  predicate GoodHead(doc: Dict<Json>)
  {
    && Get(doc, "stra2us_backup_version") in {Some(Integer(1)), Some(Boolean(true)), Some(Real("1.0"))}
    && (Get(doc, "dump_kind") == Some(Text("whole"))
        || (Get(doc, "dump_kind") == Some(Text("per-app")) && Get(doc, "app").Some? && Get(doc, "app").value.Text?))
    && Get(doc, "data").Some? && Get(doc, "data").value.Object?
  }

  /** The first entry that does not read decides, and its error is the error of all. */
  lemma {:induction false} FirstFailureIff<T>(d: Dict<Json>, read: (string, Json) -> Result<T>, x: Error)
    ensures ReadDict(d, read) == Err(x)
            <==> exists i | 0 <= i < |d| :: read(d[i].0, d[i].1) == Err(x)
                                           && forall j | 0 <= j < i :: read(d[j].0, d[j].1).Ok?
    ensures ReadDict(d, read).Ok? <==> forall i | 0 <= i < |d| :: read(d[i].0, d[i].1).Ok?
  {
    if d != [] {
      var front, n := d[..|d| - 1], |d| - 1;
      FirstFailureIff(front, read, x);
      assert forall i | 0 <= i < n :: front[i] == d[i];
      assert ReadDict(front, read).Ok? ==> forall j | 0 <= j < n :: read(d[j].0, d[j].1).Ok?;
    }
  }

  lemma {:induction false} FirstFailureOfListIff<T>(js: seq<Json>, read: Json -> Result<T>, x: Error)
    ensures ReadList(js, read) == Err(x)
            <==> exists i | 0 <= i < |js| :: read(js[i]) == Err(x) && forall j | 0 <= j < i :: read(js[j]).Ok?
    ensures ReadList(js, read).Ok? <==> forall i | 0 <= i < |js| :: read(js[i]).Ok?
  {
    if js != [] {
      var front, n := js[..|js| - 1], |js| - 1;
      FirstFailureOfListIff(front, read, x);
      assert forall i | 0 <= i < n :: front[i] == js[i];
      assert ReadList(front, read).Ok? ==> forall j | 0 <= j < n :: read(js[j]).Ok?;
    }
  }

  lemma EntryReadIff(j: Json, show: Json -> string)
    ensures EntryFromJson(j, show).Ok? <==> GoodEntry(j)
  {
    hide Get, ReadDict, Base64.Decode;
    if j.Object? && Get(j.fields, "fields").Some? && Get(j.fields, "fields").value.Object? {
      FirstFailureIff(Get(j.fields, "fields").value.fields, BytesFromJson, Raised);
    }
  }

  lemma StreamReadIff(j: Json, show: Json -> string)
    requires j.List?
    ensures ReadList(j.items, EntryReader(show)).Ok? <==> GoodStream(j)
  {
    hide EntryFromJson, GoodEntry, ReadList;
    FirstFailureOfListIff(j.items, EntryReader(show), Raised);
    forall i | 0 <= i < |j.items| ensures EntryReader(show)(j.items[i]).Ok? <==> GoodEntry(j.items[i]) {
      EntryReadIff(j.items[i], show);
    }
  }

  /** One section reads exactly if it is a good one. */
  lemma SectionReadIff<T>(data: Dict<Json>, name: string, good: Json -> bool, read: (string, Json) -> Result<T>)
    requires forall id, j :: read(id, j).Ok? <==> good(j)
    ensures GoodSection(data, name, good)
            <==> Entries(data, name).Ok? && ReadDict(Entries(data, name).value, read).Ok?
  {
    hide Get, ReadDict;
    if Entries(data, name).Ok? {
      FirstFailureIff(Entries(data, name).value, read, Raised);
    }
  }

  lemma ClientsIff(data: Dict<Json>, show: Json -> string)
    ensures GoodSection(data, "clients", GoodClient)
            <==> Entries(data, "clients").Ok? && ReadDict(Entries(data, "clients").value, ClientReader(show)).Ok?
  {
    hide Get, ReadDict, Entries, GoodSection;
    SectionReadIff(data, "clients", GoodClient, ClientReader(show));
  }

  lemma AclsIff(data: Dict<Json>)
    ensures GoodSection(data, "admin_acls", (j: Json) => j.Object?)
            <==> Entries(data, "admin_acls").Ok? && ReadDict(Entries(data, "admin_acls").value, AclFromJson).Ok?
  {
    hide Get, ReadDict, Entries, GoodSection;
    SectionReadIff(data, "admin_acls", (j: Json) => j.Object?, AclFromJson);
  }

  lemma KvIff(data: Dict<Json>)
    ensures GoodSection(data, "kv", GoodKv)
            <==> Entries(data, "kv").Ok? && ReadDict(Entries(data, "kv").value, KvFromJson).Ok?
  {
    hide Get, ReadDict, Entries, GoodSection, Base64.Decode;
    SectionReadIff(data, "kv", GoodKv, KvFromJson);
  }

  lemma QueuesIff(data: Dict<Json>, show: Json -> string)
    ensures GoodSection(data, "queues", GoodStream)
            <==> Entries(data, "queues").Ok? && ReadDict(Entries(data, "queues").value, QueueReader(show)).Ok?
  {
    hide Get, ReadDict, Entries, GoodSection, ReadList, GoodEntry, EntryReader;
    forall id: string, j: Json ensures QueueReader(show)(id, j).Ok? <==> GoodStream(j) {
      if j.List? {
        StreamReadIff(j, show);
      }
    }
    SectionReadIff(data, "queues", GoodStream, QueueReader(show));
  }

  lemma DevicesIff(data: Dict<Json>, show: Json -> string)
    ensures GoodSection(data, "device_to_app", _ => true)
            <==> Entries(data, "device_to_app").Ok?
                 && ReadDict(Entries(data, "device_to_app").value, DeviceReader(show)).Ok?
  {
    hide Get, ReadDict, Entries, GoodSection;
    SectionReadIff(data, "device_to_app", _ => true, DeviceReader(show));
  }

  lemma LogIff(j: Option<Json>, show: Json -> string)
    ensures LogFromJson(j, show).Ok? <==> GoodLog(j)
    ensures !GoodLog(j) ==> LogFromJson(j, show) == Err(LogError(j.value, show))
  {
    hide ReadList, EntryReader;
    if j.Some? && j.value.List? {
      StreamReadIff(j.value, show);
    }
  }

  /** The error of a log that is no good: that of its first entry that does not read, if it is a list at all. */
  function LogError(j: Json, show: Json -> string): (x: Error)
  {
    if !j.List? then LogList
    else
      var r := ReadList(j.items, EntryReader(show));
      if r.Err? then r.error else Raised
  }

  lemma DevicesRead(data: Dict<Json>, show: Json -> string)
    ensures var entries := Entries(data, "device_to_app");
            if entries.Err? then entries.error == Raised else ReadDict(entries.value, DeviceReader(show)).Ok?
  {
    hide Get, ReadDict, Truthy;
    if Entries(data, "device_to_app").Ok? {
      FirstFailureIff(Entries(data, "device_to_app").value, DeviceReader(show), Raised);
    }
  }

  lemma DataReadIff(kind: string, app: Json, exportedAt: Json, data: Dict<Json>, show: Json -> string)
    ensures ReadData(kind, app, exportedAt, data, show).Ok? <==> GoodData(data)
  {
    hide Get, ReadDict, Entries, GoodSection, ReadList, GoodEntry, EntryReader, ClientReader, QueueReader, DeviceReader;
    ClientsIff(data, show);
    AclsIff(data);
    KvIff(data);
    QueuesIff(data, show);
    DevicesIff(data, show);
    LogIff(Get(data, "activity_log"), show);
  }

  /** A document is taken exactly if its head is right and every section it has is well formed, to the last field. */
  lemma AcceptedIff(doc: Json, show: Json -> string)
    ensures FromJson(doc, show).Ok?
            <==> doc.Object? && GoodHead(doc.fields) && GoodData(Get(doc.fields, "data").value.fields)
  {
    hide Get, ReadData, GoodData;
    if doc.Object? && GoodHead(doc.fields) {
      var exportedAt := OrElse(Get(doc.fields, "exported_at"), Text(""));
      DataReadIff(Get(doc.fields, "dump_kind").value.s, Absent(Get(doc.fields, "app")), exportedAt,
                  Get(doc.fields, "data").value.fields, show);
    }
  }

  // ----- Which error -----

  /** What is wrong with one record, by what it lacks. */
  lemma RecordErrors(name: string, j: Json, show: Json -> string)
    ensures !GoodClient(j) ==> ClientFromJson(name, j, show) == Err(ClientSecret(name))
    ensures !j.Object? ==> AclFromJson(name, j) == Err(AdminAcl(name))
    ensures !(j.Object? && Get(j.fields, "value").Some?) ==> KvFromJson(name, j) == Err(KvValue(name))
    ensures j.Object? && Get(j.fields, "value").Some? && !Get(j.fields, "value").value.Text?
            ==> KvFromJson(name, j) == Err(NotText)
    ensures j.Object? && Get(j.fields, "value").Some? && Get(j.fields, "value").value.Text?
            && Base64.Decode(Get(j.fields, "value").value.s).None?
            ==> KvFromJson(name, j) == Err(BadBase64)
    ensures !j.List? ==> QueueFromJson(name, j, show) == Err(QueueList(name))
    ensures !(j.Object? && Get(j.fields, "id").Some? && Get(j.fields, "fields").Some?)
            ==> EntryFromJson(j, show) == Err(EntryShape)
    ensures j.Object? && Get(j.fields, "id").Some? && Get(j.fields, "fields").Some?
            && !Get(j.fields, "fields").value.Object?
            ==> EntryFromJson(j, show) == Err(EntryFields)
  {
    hide Get, Base64.Decode;
  }

  /** The error of a section that is no good: that of its first record that does not read, or the exception. */
  function SectionError<T>(data: Dict<Json>, name: string, read: (string, Json) -> Result<T>): (x: Error)
  {
    var entries := Entries(data, name);
    if entries.Err? then Raised
    else
      var r := ReadDict(entries.value, read);
      if r.Err? then r.error else Raised
  }

  lemma ClientsFail(kind: string, app: Json, exportedAt: Json, data: Dict<Json>, show: Json -> string)
    requires !GoodSection(data, "clients", GoodClient)
    ensures ReadData(kind, app, exportedAt, data, show) == Err(SectionError(data, "clients", ClientReader(show)))
  {
    hide Get, ReadDict, GoodSection, ClientReader, Truthy;
    ClientsIff(data, show);
  }

  lemma AclsFail(kind: string, app: Json, exportedAt: Json, data: Dict<Json>, show: Json -> string)
    requires GoodSection(data, "clients", GoodClient) && !GoodSection(data, "admin_acls", (j: Json) => j.Object?)
    ensures ReadData(kind, app, exportedAt, data, show) == Err(SectionError(data, "admin_acls", AclFromJson))
  {
    hide Get, ReadDict, GoodSection, ClientReader, Truthy;
    ClientsIff(data, show);
    AclsIff(data);
  }

  lemma KvFails(kind: string, app: Json, exportedAt: Json, data: Dict<Json>, show: Json -> string)
    requires GoodSection(data, "clients", GoodClient) && GoodSection(data, "admin_acls", (j: Json) => j.Object?)
    requires !GoodSection(data, "kv", GoodKv)
    ensures ReadData(kind, app, exportedAt, data, show) == Err(SectionError(data, "kv", KvFromJson))
  {
    hide Get, ReadDict, GoodSection, ClientReader, Truthy;
    ClientsIff(data, show);
    AclsIff(data);
    KvIff(data);
  }

  lemma QueuesFail(kind: string, app: Json, exportedAt: Json, data: Dict<Json>, show: Json -> string)
    requires GoodSection(data, "clients", GoodClient) && GoodSection(data, "admin_acls", (j: Json) => j.Object?)
    requires GoodSection(data, "kv", GoodKv) && !GoodSection(data, "queues", GoodStream)
    ensures ReadData(kind, app, exportedAt, data, show) == Err(SectionError(data, "queues", QueueReader(show)))
  {
    hide Get, ReadDict, GoodSection, ClientReader, QueueReader, Truthy;
    ClientsIff(data, show);
    AclsIff(data);
    KvIff(data);
    QueuesIff(data, show);
  }

  lemma LogFails(kind: string, app: Json, exportedAt: Json, data: Dict<Json>, show: Json -> string)
    requires GoodSection(data, "clients", GoodClient) && GoodSection(data, "admin_acls", (j: Json) => j.Object?)
    requires GoodSection(data, "kv", GoodKv) && GoodSection(data, "queues", GoodStream)
    requires !GoodLog(Get(data, "activity_log"))
    ensures ReadData(kind, app, exportedAt, data, show) == Err(LogError(Get(data, "activity_log").value, show))
  {
    hide Get, ReadDict, GoodSection, ClientReader, QueueReader, LogFromJson, LogError, GoodLog, Entries;
    ClientsIff(data, show);
    AclsIff(data);
    KvIff(data);
    QueuesIff(data, show);
    LogIff(Get(data, "activity_log"), show);
  }

  lemma DevicesFail(kind: string, app: Json, exportedAt: Json, data: Dict<Json>, show: Json -> string)
    requires GoodSection(data, "clients", GoodClient) && GoodSection(data, "admin_acls", (j: Json) => j.Object?)
    requires GoodSection(data, "kv", GoodKv) && GoodSection(data, "queues", GoodStream)
    requires GoodLog(Get(data, "activity_log")) && !GoodSection(data, "device_to_app", _ => true)
    ensures ReadData(kind, app, exportedAt, data, show) == Err(Raised)
  {
    hide Get, ReadDict, GoodSection, ClientReader, QueueReader, DeviceReader, LogFromJson, GoodLog, Entries;
    ClientsIff(data, show);
    AclsIff(data);
    KvIff(data);
    QueuesIff(data, show);
    LogIff(Get(data, "activity_log"), show);
    DevicesIff(data, show);
    DevicesRead(data, show);
  }

  /** The first section that is no good decides. */
  lemma FirstBadSection(kind: string, app: Json, exportedAt: Json, data: Dict<Json>, show: Json -> string)
    requires !GoodData(data)
    ensures ReadData(kind, app, exportedAt, data, show)
            == Err(if !GoodSection(data, "clients", GoodClient) then SectionError(data, "clients", ClientReader(show))
                   else if !GoodSection(data, "admin_acls", (j: Json) => j.Object?) then
                     SectionError(data, "admin_acls", AclFromJson)
                   else if !GoodSection(data, "kv", GoodKv) then SectionError(data, "kv", KvFromJson)
                   else if !GoodSection(data, "queues", GoodStream) then
                     SectionError(data, "queues", QueueReader(show))
                   else if !GoodLog(Get(data, "activity_log")) then LogError(Get(data, "activity_log").value, show)
                   else Raised)
  {
    hide Get, ReadData, GoodSection, SectionError, GoodLog, LogError;
    if !GoodSection(data, "clients", GoodClient) {
      ClientsFail(kind, app, exportedAt, data, show);
    } else if !GoodSection(data, "admin_acls", (j: Json) => j.Object?) {
      AclsFail(kind, app, exportedAt, data, show);
    } else if !GoodSection(data, "kv", GoodKv) {
      KvFails(kind, app, exportedAt, data, show);
    } else if !GoodSection(data, "queues", GoodStream) {
      QueuesFail(kind, app, exportedAt, data, show);
    } else if !GoodLog(Get(data, "activity_log")) {
      LogFails(kind, app, exportedAt, data, show);
    } else {
      DevicesFail(kind, app, exportedAt, data, show);
    }
  }

  /** The head is checked from top to bottom, before any section is looked at. */
  lemma HeadErrors(show: Json -> string)
    ensures FromJson(Null, show) == FromJson(List([]), show) == Err(NotAnObject)
    ensures FromJson(Object([]), show) == Err(BadVersion)
    ensures FromJson(Object([("stra2us_backup_version", Integer(2))]), show) == Err(BadVersion)
    ensures FromJson(Object([("stra2us_backup_version", Text("1"))]), show) == Err(BadVersion)
    ensures FromJson(Object([("stra2us_backup_version", Integer(1))]), show) == Err(BadKind)
    ensures FromJson(Object([("stra2us_backup_version", Integer(1)), ("dump_kind", Text("per-app"))]), show)
            == Err(AppMissing)
    ensures FromJson(Object([("stra2us_backup_version", Integer(1)), ("dump_kind", Text("whole"))]), show)
            == Err(DataMissing)
  {
    Pair(Integer(1), "per-app");
    Pair(Integer(1), "whole");
  }

  lemma Pair(j: Json, kind: string)
    ensures var d := [("stra2us_backup_version", j), ("dump_kind", Text(kind))];
            && Get(d, "stra2us_backup_version") == Some(j) && Get(d, "dump_kind") == Some(Text(kind))
            && Get(d, "app") == None && Get(d, "data") == None
  {
    var d := [("stra2us_backup_version", j), ("dump_kind", Text(kind))];
    GetIff(d, "stra2us_backup_version", j);
    GetIff(d, "dump_kind", Text(kind));
    GetIff(d, "app", Null);
    GetIff(d, "data", Null);
    assert d[0] == ("stra2us_backup_version", j) && d[1] == ("dump_kind", Text(kind));
  }

  // ----- What is read -----

  /** What a document may leave out or say in another type. */
  lemma Leniencies(show: Json -> string)
    ensures ClientFromJson("c", Object([("secret", Text("s"))]), show) == Ok(ClientRecord("s", Object([])))
    ensures ClientFromJson("c", Object([("secret", Integer(7)), ("acl", Null)]), show)
            == Ok(ClientRecord(show(Integer(7)), Object([])))
    ensures KvFromJson("k", Object([("value", Text(""))])) == Ok(KvRecord([], false))
    ensures KvFromJson("k", Object([("value", Text("")), ("encrypted", Integer(1))])) == Ok(KvRecord([], true))
    ensures KvFromJson("k", Object([("value", Text("")), ("encrypted", Null)])) == Ok(KvRecord([], false))
    ensures EntryFromJson(Object([("id", Integer(5)), ("fields", Object([]))]), show)
            == Ok(StreamEntry(show(Integer(5)), []))
  {
    Base64.RoundTrip([]);
  }

  // ----- What is written -----

  /** The document of an envelope with one record of each kind, in full. */
  lemma DocumentExample()
    ensures ToJson(Envelope("per-app", Text("shop"), Text("2026-05-14T10:23:45Z"),
                            [("d1", ClientRecord("00ff", Object([])))],
                            [("ann", Object([("permissions", List([]))]))],
                            [("shop/mode", KvRecord([0x68, 0x69], true))],
                            [("shop/log", [StreamEntry("1-0", [("payload", [0x68])])])],
                            Some([]),
                            [("d1", "shop")]))
            == Object([("stra2us_backup_version", Integer(1)), ("dump_kind", Text("per-app")), ("app", Text("shop")),
                       ("exported_at", Text("2026-05-14T10:23:45Z")), ("data", DataExample())])
  {
    hide Base64.Encode, MapDict, MapList;
    Base64Examples();
    One("d1", ClientRecord("00ff", Object([])), ClientToJson);
    One("shop/mode", KvRecord([0x68, 0x69], true), KvToJson);
    One("payload", [0x68], BytesToJson);
    var es := [StreamEntry("1-0", [("payload", [0x68])])];
    One("shop/log", es, StreamToJson);
    assert MapList(es, EntryToJson) == [EntryToJson(es[0])];
    assert MapList([], EntryToJson) == [];
    One("d1", "shop", TextToJson);
  }

  function DataExample(): (j: Json)
  {
    var entry := Object([("id", Text("1-0")), ("fields", Object([("payload", Text("aA=="))]))]);
    Object([("clients", Object([("d1", Object([("secret", Text("00ff")), ("acl", Object([]))]))])),
            ("admin_acls", Object([("ann", Object([("permissions", List([]))]))])),
            ("kv", Object([("shop/mode", Object([("value", Text("aGk=")), ("encrypted", Boolean(true))]))])),
            ("queues", Object([("shop/log", List([entry]))])),
            ("activity_log", List([])),
            ("device_to_app", Object([("d1", Text("shop"))]))])
  }

  lemma One<S>(key: string, x: S, f: S -> Json)
    ensures MapDict([(key, x)], f) == [(key, f(x))]
  {}

  lemma Base64Examples()
    ensures Base64.Encode([0x68, 0x69]) == "aGk=" && Base64.Encode([0x68]) == "aA=="
  {
    assert Base64.First(0x68) == 26 && Base64.Second(0x68, 0x69) == 6 && Base64.Third(0x69, 0) == 36;
    assert Base64.Second(0x68, 0) == 0;
  }
}
