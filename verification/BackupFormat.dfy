/** The backup envelope and its JSON form: `to_json`, `from_json` and the errors between them. */
module BackupFormat {
  import opened Bytes
  import Base64

  // ----- JSON, as Python holds it -----

  /** Objects are dictionaries, in insertion order; a float is given by its `repr`. */
  datatype Json =
    | Null
    | Boolean(b: bool)
    | Integer(n: int)
    | Real(digits: string)
    | Text(s: string)
    | List(items: seq<Json>)
    | Object(fields: Dict<Json>)

  type Dict<T> = seq<(string, T)>

  function Get<T>(d: Dict<T>, key: string): (r: Option<T>)
  {
    if d == [] then None else if d[0].0 == key then Some(d[0].1) else Get(d[1..], key)
  }

  /** Python's truth value. */
  predicate Truthy(j: Json)
  {
    match j
    case Null => false
    case Boolean(b) => b
    case Integer(n) => n != 0
    case Real(d) => d != "0.0" && d != "-0.0"
    case Text(s) => s != ""
    case List(items) => items != []
    case Object(fields) => fields != []
  }

  /** `str(j)`; what it makes of anything but text is the parameter `show`. */
  function Str(j: Json, show: Json -> string): (s: string) { if j.Text? then j.s else show(j) }

  // ----- The envelope -----

  datatype ClientRecord = ClientRecord(secret: string, acl: Json)

  datatype KvRecord = KvRecord(value: seq<byte>, encrypted: bool)

  datatype StreamEntry = StreamEntry(id: string, fields: Dict<seq<byte>>)

  /** `app` and `exported_at` are whatever the document says; a dump of this server has text or null in them. */
  datatype Envelope = Envelope(kind: string, app: Json, exportedAt: Json, clients: Dict<ClientRecord>,
                               adminAcls: Dict<Json>, kv: Dict<KvRecord>, queues: Dict<seq<StreamEntry>>,
                               activityLog: Option<seq<StreamEntry>>, deviceToApp: Dict<string>)

  /** The structural errors of `from_json`; `Raised` is any other exception (`.items()` on a non-object). */
  datatype Error =
    | NotAnObject | BadVersion | BadKind | AppMissing | DataMissing
    | ClientSecret(id: string) | AdminAcl(user: string) | KvValue(key: string) | QueueList(topic: string)
    | LogList | EntryShape | EntryFields | NotText | BadBase64
    | Raised

  datatype Result<+T> = Ok(value: T) | Err(error: Error) {
    predicate IsFailure() { Err? }

    function PropagateFailure<U>(): (r: Result<U>)
      requires Err?
    {
      Err(error)
    }

    function Extract(): (t: T)
      requires Ok?
    {
      value
    }
  }

  // ----- Writing -----

  function MapDict<S, T>(d: Dict<S>, f: S -> T): (r: Dict<T>)
    ensures |r| == |d| && forall i | 0 <= i < |d| :: r[i] == (d[i].0, f(d[i].1))
  {
    if d == [] then [] else [(d[0].0, f(d[0].1))] + MapDict(d[1..], f)
  }

  function MapList<S, T>(xs: seq<S>, f: S -> T): (r: seq<T>)
    ensures |r| == |xs| && forall i | 0 <= i < |xs| :: r[i] == f(xs[i])
  {
    if xs == [] then [] else [f(xs[0])] + MapList(xs[1..], f)
  }

  function BytesToJson(b: seq<byte>): (j: Json) { Text(Base64.Encode(b)) }

  function ClientToJson(c: ClientRecord): (j: Json) { Object([("secret", Text(c.secret)), ("acl", c.acl)]) }

  function KvToJson(r: KvRecord): (j: Json)
  {
    Object([("value", BytesToJson(r.value)), ("encrypted", Boolean(r.encrypted))])
  }

  function EntryToJson(e: StreamEntry): (j: Json)
  {
    Object([("id", Text(e.id)), ("fields", Object(MapDict(e.fields, BytesToJson)))])
  }

  function StreamToJson(es: seq<StreamEntry>): (j: Json) { List(MapList(es, EntryToJson)) }

  function TextToJson(s: string): (j: Json) { Text(s) }

  function LogToJson(log: Option<seq<StreamEntry>>): (j: Json)
  {
    match log case None => Null case Some(es) => StreamToJson(es)
  }

  function DataToJson(e: Envelope): (j: Json)
  {
    Object([("clients", Object(MapDict(e.clients, ClientToJson))),
            ("admin_acls", Object(e.adminAcls)),
            ("kv", Object(MapDict(e.kv, KvToJson))),
            ("queues", Object(MapDict(e.queues, StreamToJson))),
            ("activity_log", LogToJson(e.activityLog)),
            ("device_to_app", Object(MapDict(e.deviceToApp, TextToJson)))])
  }

  const VERSION := 1

  function ToJson(e: Envelope): (j: Json)
  {
    Object([("stra2us_backup_version", Integer(VERSION)), ("dump_kind", Text(e.kind)), ("app", e.app),
            ("exported_at", e.exportedAt), ("data", DataToJson(e))])
  }

  // ----- Reading -----

  /** Reads every entry, and stops at the first that does not read. */
  function ReadDict<T>(d: Dict<Json>, read: (string, Json) -> Result<T>): (r: Result<Dict<T>>)
    ensures r.Ok? ==> |r.value| == |d|
  {
    if d == [] then Ok([])
    else
      var front :- ReadDict(d[..|d| - 1], read);
      var last :- read(d[|d| - 1].0, d[|d| - 1].1);
      Ok(front + [(d[|d| - 1].0, last)])
  }

  function ReadList<T>(js: seq<Json>, read: Json -> Result<T>): (r: Result<seq<T>>)
    ensures r.Ok? ==> |r.value| == |js|
  {
    if js == [] then Ok([])
    else
      var front :- ReadList(js[..|js| - 1], read);
      var last :- read(js[|js| - 1]);
      Ok(front + [last])
  }

  function BytesFromJson(key: string, j: Json): (r: Result<seq<byte>>)
  {
    if !j.Text? then Err(NotText)
    else match Base64.Decode(j.s) case Some(b) => Ok(b) case None => Err(BadBase64)
  }

  function OrElse(j: Option<Json>, default: Json): (r: Json) { if j.Some? && Truthy(j.value) then j.value else default }

  function ClientFromJson(id: string, j: Json, show: Json -> string): (r: Result<ClientRecord>)
  {
    if !j.Object? || Get(j.fields, "secret").None? then Err(ClientSecret(id))
    else Ok(ClientRecord(Str(Get(j.fields, "secret").value, show), OrElse(Get(j.fields, "acl"), Object([]))))
  }

  function AclFromJson(user: string, j: Json): (r: Result<Json>) { if j.Object? then Ok(j) else Err(AdminAcl(user)) }

  function KvFromJson(key: string, j: Json): (r: Result<KvRecord>)
  {
    if !j.Object? || Get(j.fields, "value").None? then Err(KvValue(key))
    else
      var value :- BytesFromJson(key, Get(j.fields, "value").value);
      Ok(KvRecord(value, Get(j.fields, "encrypted").Some? && Truthy(Get(j.fields, "encrypted").value)))
  }

  function EntryFromJson(j: Json, show: Json -> string): (r: Result<StreamEntry>)
  {
    if !j.Object? || Get(j.fields, "id").None? || Get(j.fields, "fields").None? then Err(EntryShape)
    else if !Get(j.fields, "fields").value.Object? then Err(EntryFields)
    else
      var fields :- ReadDict(Get(j.fields, "fields").value.fields, BytesFromJson);
      Ok(StreamEntry(Str(Get(j.fields, "id").value, show), fields))
  }

  function EntryReader(show: Json -> string): (f: Json -> Result<StreamEntry>) { j => EntryFromJson(j, show) }

  function QueueFromJson(topic: string, j: Json, show: Json -> string): (r: Result<seq<StreamEntry>>)
  {
    if !j.List? then Err(QueueList(topic)) else ReadList(j.items, EntryReader(show))
  }

  function LogFromJson(j: Option<Json>, show: Json -> string): (r: Result<Option<seq<StreamEntry>>>)
  {
    if j.None? || j.value.Null? then Ok(None)
    else if !j.value.List? then Err(LogList)
    else
      var es :- ReadList(j.value.items, EntryReader(show));
      Ok(Some(es))
  }

  /** `(data.get(name) or {}).items()`. */
  function Entries(data: Dict<Json>, name: string): (r: Result<Dict<Json>>)
  {
    var j := OrElse(Get(data, name), Object([]));
    if j.Object? then Ok(j.fields) else Err(Raised)
  }

  /** The version compares equal to 1, as `True` and `1.0` do in Python. */
  predicate VersionOk(j: Option<Json>)
  {
    j == Some(Integer(VERSION)) || j == Some(Boolean(true)) || j == Some(Real("1.0"))
  }

  function Absent(j: Option<Json>): (r: Json) { if j.Some? then j.value else Null }

  function FromJson(doc: Json, show: Json -> string): (r: Result<Envelope>)
  {
    if !doc.Object? then Err(NotAnObject)
    else if !VersionOk(Get(doc.fields, "stra2us_backup_version")) then Err(BadVersion)
    else
      var kind, app, data := Get(doc.fields, "dump_kind"), Absent(Get(doc.fields, "app")), Get(doc.fields, "data");
      if kind != Some(Text("whole")) && kind != Some(Text("per-app")) then Err(BadKind)
      else if kind == Some(Text("per-app")) && !app.Text? then Err(AppMissing)
      else if data.None? || !data.value.Object? then Err(DataMissing)
      else ReadData(kind.value.s, app, OrElse(Get(doc.fields, "exported_at"), Text("")), data.value.fields, show)
  }

  function ClientReader(show: Json -> string): (f: (string, Json) -> Result<ClientRecord>)
  {
    (id, j) => ClientFromJson(id, j, show)
  }

  function QueueReader(show: Json -> string): (f: (string, Json) -> Result<seq<StreamEntry>>)
  {
    (topic, j) => QueueFromJson(topic, j, show)
  }

  function DeviceReader(show: Json -> string): (f: (string, Json) -> Result<string>)
  {
    (_, j) => Ok(Str(j, show))
  }

  function ReadData(kind: string, app: Json, exportedAt: Json, data: Dict<Json>, show: Json -> string)
    : (r: Result<Envelope>)
  {
    var rawClients :- Entries(data, "clients");
    var clients :- ReadDict(rawClients, ClientReader(show));
    var rawAcls :- Entries(data, "admin_acls");
    var acls :- ReadDict(rawAcls, AclFromJson);
    var rawKv :- Entries(data, "kv");
    var kv :- ReadDict(rawKv, KvFromJson);
    var rawQueues :- Entries(data, "queues");
    var queues :- ReadDict(rawQueues, QueueReader(show));
    var log :- LogFromJson(Get(data, "activity_log"), show);
    var rawDevices :- Entries(data, "device_to_app");
    var devices :- ReadDict(rawDevices, DeviceReader(show));
    Ok(Envelope(kind, app, exportedAt, clients, acls, kv, queues, log, devices))
  }

  // ----- There and back -----

  /** What `to_json` writes and `from_json` gives back as it was. */
  predicate Valid(e: Envelope)
  {
    && (e.kind == "whole" || (e.kind == "per-app" && e.app.Text?))
    && (Truthy(e.exportedAt) || e.exportedAt == Text(""))
    && (forall i | 0 <= i < |e.clients| :: AclSurvives(e.clients[i].1.acl))
    && forall i | 0 <= i < |e.adminAcls| :: e.adminAcls[i].1.Object?
  }

  predicate AclSurvives(acl: Json) { Truthy(acl) || acl == Object([]) }

  lemma {:induction false} ReadDictIff<S>(d: Dict<S>, write: S -> Json, read: (string, Json) -> Result<S>)
    ensures ReadDict(MapDict(d, write), read) == Ok(d)
            <==> forall i | 0 <= i < |d| :: read(d[i].0, write(d[i].1)) == Ok(d[i].1)
  {
    hide MapDict;
    if d != [] {
      var front, last := d[..|d| - 1], d[|d| - 1];
      ReadDictIff(front, write, read);
      MapDictFront(d, write);
      SnocEq(front, d);
    }
  }

  lemma MapDictFront<S>(d: Dict<S>, write: S -> Json)
    requires d != []
    ensures MapDict(d, write)[..|d| - 1] == MapDict(d[..|d| - 1], write)
  {
    hide MapDict;
  }

  /** A list is its front and its last entry, and nothing else. */
  lemma SnocEq<S>(front: Dict<S>, d: Dict<S>)
    requires d != [] && front == d[..|d| - 1]
    ensures forall f: Dict<S>, x: (string, S) :: f + [x] == d <==> f == front && x == d[|d| - 1]
    ensures forall i | 0 <= i < |front| :: front[i] == d[i]
  {
    forall f: Dict<S>, x: (string, S) | f + [x] == d ensures f == front && x == d[|d| - 1] {
      assert (f + [x])[..|f|] == f;
    }
    assert front + [d[|d| - 1]] == d;
  }

  lemma {:induction false} ReadListBack<S>(xs: seq<S>, write: S -> Json, read: Json -> Result<S>)
    requires forall i | 0 <= i < |xs| :: read(write(xs[i])) == Ok(xs[i])
    ensures ReadList(MapList(xs, write), read) == Ok(xs)
  {
    if xs != [] {
      ReadListBack(xs[..|xs| - 1], write, read);
      assert MapList(xs, write)[..|xs| - 1] == MapList(xs[..|xs| - 1], write);
      assert xs == xs[..|xs| - 1] + [xs[|xs| - 1]];
    }
  }

  lemma BytesBack(key: string, b: seq<byte>)
    ensures BytesFromJson(key, BytesToJson(b)) == Ok(b)
  {
    Base64.RoundTrip(b);
  }

  lemma GetTwo(k0: string, j0: Json, k1: string, j1: Json)
    requires k0 != k1
    ensures Get([(k0, j0), (k1, j1)], k0) == Some(j0) && Get([(k0, j0), (k1, j1)], k1) == Some(j1)
  {
    assert [(k0, j0), (k1, j1)][1..] == [(k1, j1)];
  }

  lemma EntryBack(e: StreamEntry, show: Json -> string)
    ensures EntryFromJson(EntryToJson(e), show) == Ok(e)
  {
    hide ReadDict, MapDict, BytesFromJson, BytesToJson, Get;
    var fs := Object(MapDict(e.fields, BytesToJson));
    GetTwo("id", Text(e.id), "fields", fs);
    forall i | 0 <= i < |e.fields|
      ensures BytesFromJson(e.fields[i].0, BytesToJson(e.fields[i].1)) == Ok(e.fields[i].1)
    {
      BytesBack(e.fields[i].0, e.fields[i].1);
    }
    ReadDictIff(e.fields, BytesToJson, BytesFromJson);
  }

  lemma StreamBack(es: seq<StreamEntry>, show: Json -> string)
    ensures ReadList(MapList(es, EntryToJson), EntryReader(show)) == Ok(es)
  {
    hide EntryFromJson, EntryToJson;
    forall i | 0 <= i < |es| ensures EntryReader(show)(EntryToJson(es[i])) == Ok(es[i]) {
      EntryBack(es[i], show);
    }
    ReadListBack(es, EntryToJson, EntryReader(show));
  }

  lemma ClientBackIff(id: string, c: ClientRecord, show: Json -> string)
    ensures ClientFromJson(id, ClientToJson(c), show) == Ok(c) <==> AclSurvives(c.acl)
  {
    hide Get;
    GetTwo("secret", Text(c.secret), "acl", c.acl);
  }

  lemma KvBack(key: string, r: KvRecord)
    ensures KvFromJson(key, KvToJson(r)) == Ok(r)
  {
    hide Get, BytesFromJson, BytesToJson;
    GetTwo("value", BytesToJson(r.value), "encrypted", Boolean(r.encrypted));
    BytesBack(key, r.value);
  }

  lemma ClientsBack(d: Dict<ClientRecord>, show: Json -> string)
    ensures ReadDict(MapDict(d, ClientToJson), ClientReader(show)) == Ok(d)
            <==> forall i | 0 <= i < |d| :: AclSurvives(d[i].1.acl)
  {
    hide ClientFromJson, ClientToJson, AclSurvives, ReadDict, MapDict;
    forall i | 0 <= i < |d|
      ensures ClientReader(show)(d[i].0, ClientToJson(d[i].1)) == Ok(d[i].1) <==> AclSurvives(d[i].1.acl) {
      ClientBackIff(d[i].0, d[i].1, show);
    }
    ReadDictIff(d, ClientToJson, ClientReader(show));
  }

  function Itself(j: Json): (r: Json) { j }

  lemma AclsBack(d: Dict<Json>)
    ensures ReadDict(d, AclFromJson) == Ok(d) <==> forall i | 0 <= i < |d| :: d[i].1.Object?
  {
    hide ReadDict, MapDict;
    ReadDictIff(d, Itself, AclFromJson);
    assert MapDict(d, Itself) == d;
  }

  lemma KvsBack(d: Dict<KvRecord>)
    ensures ReadDict(MapDict(d, KvToJson), KvFromJson) == Ok(d)
  {
    hide ReadDict, MapDict, KvFromJson, KvToJson;
    forall i | 0 <= i < |d| ensures KvFromJson(d[i].0, KvToJson(d[i].1)) == Ok(d[i].1) {
      KvBack(d[i].0, d[i].1);
    }
    ReadDictIff(d, KvToJson, KvFromJson);
  }

  lemma QueuesBack(d: Dict<seq<StreamEntry>>, show: Json -> string)
    ensures ReadDict(MapDict(d, StreamToJson), QueueReader(show)) == Ok(d)
  {
    hide ReadDict, MapDict, ReadList, MapList, EntryReader;
    forall i | 0 <= i < |d| ensures QueueReader(show)(d[i].0, StreamToJson(d[i].1)) == Ok(d[i].1) {
      StreamBack(d[i].1, show);
    }
    ReadDictIff(d, StreamToJson, QueueReader(show));
  }

  lemma DevicesBack(d: Dict<string>, show: Json -> string)
    ensures ReadDict(MapDict(d, TextToJson), DeviceReader(show)) == Ok(d)
  {
    hide ReadDict, MapDict;
    ReadDictIff(d, TextToJson, DeviceReader(show));
  }

  /** Null and an empty log stay apart. */
  lemma LogBack(log: Option<seq<StreamEntry>>, show: Json -> string)
    ensures LogFromJson(Some(LogToJson(log)), show) == Ok(log)
  {
    hide ReadList, MapList, EntryReader;
    if log.Some? {
      StreamBack(log.value, show);
    }
  }

  lemma DataParts(e: Envelope)
    ensures var d := DataToJson(e).fields;
            && Get(d, "clients") == Some(Object(MapDict(e.clients, ClientToJson)))
            && Get(d, "admin_acls") == Some(Object(e.adminAcls))
            && Get(d, "kv") == Some(Object(MapDict(e.kv, KvToJson)))
            && Get(d, "queues") == Some(Object(MapDict(e.queues, StreamToJson)))
            && Get(d, "activity_log") == Some(LogToJson(e.activityLog))
            && Get(d, "device_to_app") == Some(Object(MapDict(e.deviceToApp, TextToJson)))
  {
    hide MapDict, LogToJson;
    var d := DataToJson(e).fields;
    GetAt(d, 0); GetAt(d, 1); GetAt(d, 2); GetAt(d, 3); GetAt(d, 4); GetAt(d, 5);
  }

  lemma {:induction false} GetAt<T>(d: Dict<T>, i: nat)
    requires i < |d| && forall j | 0 <= j < i :: d[j].0 != d[i].0
    ensures Get(d, d[i].0) == Some(d[i].1)
  {
    if i > 0 {
      GetAt(d[1..], i - 1);
    }
  }

  lemma EntriesOf(d: Dict<Json>, name: string, fs: Dict<Json>)
    requires Get(d, name) == Some(Object(fs))
    ensures Entries(d, name) == Ok(fs)
  {
    hide Get;
  }

  lemma DataBack(e: Envelope, show: Json -> string)
    ensures ReadData(e.kind, e.app, e.exportedAt, DataToJson(e).fields, show) == Ok(e)
            <==> (forall i | 0 <= i < |e.clients| :: AclSurvives(e.clients[i].1.acl))
                 && forall i | 0 <= i < |e.adminAcls| :: e.adminAcls[i].1.Object?
  {
    hide Get, Entries, ReadDict, MapDict, AclSurvives, LogFromJson, DataToJson, ClientReader, QueueReader, DeviceReader,
         LogToJson;
    DataIsObject(e);
    var d := DataToJson(e).fields;
    DataParts(e);
    EntriesOf(d, "clients", MapDict(e.clients, ClientToJson));
    EntriesOf(d, "admin_acls", e.adminAcls);
    EntriesOf(d, "kv", MapDict(e.kv, KvToJson));
    EntriesOf(d, "queues", MapDict(e.queues, StreamToJson));
    EntriesOf(d, "device_to_app", MapDict(e.deviceToApp, TextToJson));
    ClientsBack(e.clients, show);
    AclsBack(e.adminAcls);
    KvsBack(e.kv);
    QueuesBack(e.queues, show);
    LogBack(e.activityLog, show);
    DevicesBack(e.deviceToApp, show);
  }

  lemma DocParts(e: Envelope)
    ensures var d := ToJson(e).fields;
            && Get(d, "stra2us_backup_version") == Some(Integer(VERSION))
            && Get(d, "dump_kind") == Some(Text(e.kind)) && Get(d, "app") == Some(e.app)
            && Get(d, "exported_at") == Some(e.exportedAt) && Get(d, "data") == Some(DataToJson(e))
  {
    hide DataToJson;
    var d := ToJson(e).fields;
    GetAt(d, 0); GetAt(d, 1); GetAt(d, 2); GetAt(d, 3); GetAt(d, 4);
  }

  /** An envelope comes back from its JSON form exactly when it is valid. */
  lemma FromJsonToJsonIff(e: Envelope, show: Json -> string)
    ensures FromJson(ToJson(e), show) == Ok(e) <==> Valid(e)
  {
    hide Get, ReadData, AclSurvives;
    DocParts(e);
    DataBack(e, show);
    DataIsObject(e);
    KeepsHead(OrElse(Some(e.exportedAt), Text("")), e, show);
  }

  lemma DataIsObject(e: Envelope)
    ensures DataToJson(e).Object?
  {}

  /** The head of the document goes through unchanged. */
  lemma KeepsHead(exportedAt: Json, e: Envelope, show: Json -> string)
    ensures var r := ReadData(e.kind, e.app, exportedAt, DataToJson(e).fields, show);
            r == Ok(e) ==> exportedAt == e.exportedAt
  {
    hide Entries, ReadDict, LogFromJson, DataToJson, ClientReader, QueueReader, DeviceReader;
  }

  // ----- What is accepted -----

  lemma {:induction false} ReadDictGives<T>(d: Dict<Json>, read: (string, Json) -> Result<T>, i: nat)
    requires ReadDict(d, read).Ok? && i < |d|
    ensures read(d[i].0, d[i].1) == Ok(ReadDict(d, read).value[i].1) && ReadDict(d, read).value[i].0 == d[i].0
  {
    if i < |d| - 1 {
      ReadDictGives(d[..|d| - 1], read, i);
    }
  }

  lemma ClientsRead(d: Dict<Json>, show: Json -> string)
    requires ReadDict(d, ClientReader(show)).Ok?
    ensures var r := ReadDict(d, ClientReader(show)).value;
            forall i | 0 <= i < |r| :: AclSurvives(r[i].1.acl)
  {
    hide ReadDict, Get;
    var r := ReadDict(d, ClientReader(show)).value;
    forall i | 0 <= i < |r| ensures AclSurvives(r[i].1.acl) {
      ReadDictGives(d, ClientReader(show), i);
    }
  }

  lemma AclsRead(d: Dict<Json>)
    requires ReadDict(d, AclFromJson).Ok?
    ensures var r := ReadDict(d, AclFromJson).value;
            forall i | 0 <= i < |r| :: r[i].1.Object?
  {
    hide ReadDict;
    var r := ReadDict(d, AclFromJson).value;
    forall i | 0 <= i < |r| ensures r[i].1.Object? {
      ReadDictGives(d, AclFromJson, i);
    }
  }

  lemma DataRead(kind: string, app: Json, exportedAt: Json, data: Dict<Json>, show: Json -> string)
    requires ReadData(kind, app, exportedAt, data, show).Ok?
    ensures var e := ReadData(kind, app, exportedAt, data, show).value;
            && e.kind == kind && e.app == app && e.exportedAt == exportedAt
            && (forall i | 0 <= i < |e.clients| :: AclSurvives(e.clients[i].1.acl))
            && forall i | 0 <= i < |e.adminAcls| :: e.adminAcls[i].1.Object?
  {
    hide ReadDict, Get, Entries, LogFromJson, ClientReader, QueueReader, DeviceReader, AclSurvives;
    ClientsRead(Entries(data, "clients").value, show);
    AclsRead(Entries(data, "admin_acls").value);
  }

  /** Whatever is accepted is a valid envelope, so that writing it and reading it again gives the same envelope. */
  lemma AcceptedIsValid(doc: Json, show: Json -> string)
    requires FromJson(doc, show).Ok?
    ensures Valid(FromJson(doc, show).value)
    ensures FromJson(ToJson(FromJson(doc, show).value), show) == FromJson(doc, show)
  {
    hide ReadData, Get, AclSurvives, ToJson;
    var kind, app := Get(doc.fields, "dump_kind").value.s, Absent(Get(doc.fields, "app"));
    var data := Get(doc.fields, "data");
    DataRead(kind, app, OrElse(Get(doc.fields, "exported_at"), Text("")), data.value.fields, show);
    FromJsonToJsonIff(FromJson(doc, show).value, show);
  }

  // ----- The loops of `from_json` -----

  /** The first entry that does not read decides. */
  lemma {:induction false} ReadDictFails<T>(d: Dict<Json>, read: (string, Json) -> Result<T>, n: nat)
    requires n <= |d| && ReadDict(d[..n], read).Err?
    ensures ReadDict(d, read) == Err(ReadDict(d[..n], read).error)
  {
    if n == |d| {
      assert d[..n] == d;
    } else {
      assert d[..|d| - 1][..n] == d[..n];
      ReadDictFails(d[..|d| - 1], read, n);
    }
  }

  lemma {:induction false} ReadListFails<T>(js: seq<Json>, read: Json -> Result<T>, n: nat)
    requires n <= |js| && ReadList(js[..n], read).Err?
    ensures ReadList(js, read) == Err(ReadList(js[..n], read).error)
  {
    if n == |js| {
      assert js[..n] == js;
    } else {
      assert js[..|js| - 1][..n] == js[..n];
      ReadListFails(js[..|js| - 1], read, n);
    }
  }

  /** One section of the document, entry by entry into a dictionary. */
  method LoadDict<T>(d: Dict<Json>, read: (string, Json) -> Result<T>) returns (r: Result<Dict<T>>)
    ensures r == ReadDict(d, read)
  {
    var out: Dict<T> := [];
    for i := 0 to |d|
      invariant ReadDict(d[..i], read) == Ok(out)
    {
      assert d[..i + 1][..i] == d[..i];
      var one := read(d[i].0, d[i].1);
      if one.Err? {
        ReadDictFails(d, read, i + 1);
        return Err(one.error);
      }
      out := out + [(d[i].0, one.value)];
    }
    assert d[..|d|] == d;
    return Ok(out);
  }

  method LoadList<T>(js: seq<Json>, read: Json -> Result<T>) returns (r: Result<seq<T>>)
    ensures r == ReadList(js, read)
  {
    var out: seq<T> := [];
    for i := 0 to |js|
      invariant ReadList(js[..i], read) == Ok(out)
    {
      assert js[..i + 1][..i] == js[..i];
      var one := read(js[i]);
      if one.Err? {
        ReadListFails(js, read, i + 1);
        return Err(one.error);
      }
      out := out + [one.value];
    }
    assert js[..|js|] == js;
    return Ok(out);
  }

  /** `from_json`: checks the head, then fills the sections in turn. */
  method Load(doc: Json, show: Json -> string) returns (r: Result<Envelope>)
    ensures r == FromJson(doc, show)
  {
    hide Get, ReadDict, ReadList, Entries;
    if !doc.Object? {
      return Err(NotAnObject);
    }
    if !VersionOk(Get(doc.fields, "stra2us_backup_version")) {
      return Err(BadVersion);
    }
    var kind := Get(doc.fields, "dump_kind");
    if kind != Some(Text("whole")) && kind != Some(Text("per-app")) {
      return Err(BadKind);
    }
    var app := Absent(Get(doc.fields, "app"));
    if kind == Some(Text("per-app")) && !app.Text? {
      return Err(AppMissing);
    }
    var data := Get(doc.fields, "data");
    if data.None? || !data.value.Object? {
      return Err(DataMissing);
    }
    r := LoadData(kind.value.s, app, OrElse(Get(doc.fields, "exported_at"), Text("")), data.value.fields, show);
  }

  method LoadData(kind: string, app: Json, exportedAt: Json, data: Dict<Json>, show: Json -> string)
    returns (r: Result<Envelope>)
    ensures r == ReadData(kind, app, exportedAt, data, show)
  {
    hide Get, ReadDict, ReadList, Entries, LogFromJson, ClientReader, QueueReader, DeviceReader;
    var env := Envelope(kind, app, exportedAt, [], [], [], [], None, []);
    var rawClients :- Entries(data, "clients");
    var clients :- LoadDict(rawClients, ClientReader(show));
    env := env.(clients := clients);
    var rawAcls :- Entries(data, "admin_acls");
    var acls :- LoadDict(rawAcls, AclFromJson);
    env := env.(adminAcls := acls);
    var rawKv :- Entries(data, "kv");
    var kv :- LoadDict(rawKv, KvFromJson);
    env := env.(kv := kv);
    var rawQueues :- Entries(data, "queues");
    var queues :- LoadDict(rawQueues, QueueReader(show));
    env := env.(queues := queues);
    var log :- LoadLog(Get(data, "activity_log"), show);
    env := env.(activityLog := log);
    var rawDevices :- Entries(data, "device_to_app");
    var devices :- LoadDict(rawDevices, DeviceReader(show));
    env := env.(deviceToApp := devices);
    return Ok(env);
  }

  method LoadLog(j: Option<Json>, show: Json -> string) returns (r: Result<Option<seq<StreamEntry>>>)
    ensures r == LogFromJson(j, show)
  {
    hide ReadList;
    if j.None? || j.value.Null? {
      return Ok(None);
    }
    if !j.value.List? {
      return Err(LogList);
    }
    var es :- LoadList(j.value.items, EntryReader(show));
    return Ok(Some(es));
  }
}
