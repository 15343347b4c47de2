/**
 * The session exclusion store of services/chat/respond.js: the keywords and
 * topic domains a user has asked not to be offered again. They are kept in
 * two places. The request's session holds them as two lists. The
 * process-wide `NEGATION_BLOCKS` map holds them as two sets per session key,
 * with a timestamp. Updates are set unions of lower-cased values, so they
 * only ever grow. The clock reading is a parameter.
 */
module ExclusionStore {
  import opened Options
  import opened Strings

  /** A session field as JavaScript sees it: an array of strings, or anything
      else (absent, `null`, a non-array value). */
  datatype JsList = Arr(items: seq<string>) | NotArray

  /** The part of `req.session` the store uses; an empty `id` is a falsy one. */
  datatype Session = Session(id: string, blockedKeywords: JsList, blockedDomains: JsList)

  /** The part of the request the store uses: the session, if there is one,
      `req.sessionID` and `req.ip` (empty when falsy). */
  datatype Request = Request(session: Option<Session>, sessionID: string, ip: string)

  /** One `NEGATION_BLOCKS` entry. */
  datatype Entry = Entry(blockedDomains: set<string>, blockedKeywords: set<string>, updatedAt: int)

  /** The request and the process-wide map, the state every store operation reads and writes. */
  datatype Store = Store(req: Request, blocks: map<string, Entry>)

  /** Which of the two exclusion lists an operation works on. */
  datatype Kind = Keywords | Domains

  const Anonymous: string := "anonymous"

  const EmptyEntry: Entry := Entry({}, {}, 0)

  // ------------------------------------------------------------ session key

  /** `getSessionKey`: the session id, else the request's session id (both
      looked at only when there is a session), else the ip, else "anonymous". */
  function SessionKey(req: Request): (r: string)
    ensures r != ""
    ensures req.session.Some? && req.session.value.id != "" ==> r == req.session.value.id
    ensures req.session.Some? && req.session.value.id == "" && req.sessionID != "" ==> r == req.sessionID
    ensures (req.session.None? || (req.session.value.id == "" && req.sessionID == "")) && req.ip != "" ==> r == req.ip
    ensures (req.session.None? || (req.session.value.id == "" && req.sessionID == "")) && req.ip == "" ==> r == Anonymous
  {
    var sid := if req.session.Some? then (if req.session.value.id != "" then req.session.value.id else req.sessionID) else "";
    if sid != "" then sid
    else if req.ip != "" then req.ip
    else Anonymous
  }

  // ------------------------------------------------------------ loading

  function Field(s: Session, kind: Kind): JsList {
    match kind
    case Keywords => s.blockedKeywords
    case Domains => s.blockedDomains
  }

  function WithField(s: Session, kind: Kind, v: JsList): (r: Session)
    ensures Field(r, kind) == v
    ensures r.id == s.id
    ensures forall other: Kind :: other != kind ==> Field(r, other) == Field(s, other)
  {
    match kind
    case Keywords => s.(blockedKeywords := v)
    case Domains => s.(blockedDomains := v)
  }

  function EntrySet(e: Entry, kind: Kind): set<string> {
    match kind
    case Keywords => e.blockedKeywords
    case Domains => e.blockedDomains
  }

  /** `loadBlockedKeywords` / `loadBlockedDomains`: the session's list as a
      set, in first-occurrence order; empty without a session or without an
      array there. */
  function Load(req: Request, kind: Kind): (r: seq<string>)
    ensures NoDup(r)
    ensures req.session.None? ==> r == []
    ensures req.session.Some? && Field(req.session.value, kind).NotArray? ==> r == []
    ensures req.session.Some? && Field(req.session.value, kind).Arr? ==>
              Elems(r) == Elems(Field(req.session.value, kind).items)
  {
    match req.session
    case None => []
    case Some(s) =>
      match Field(s, kind)
      case NotArray => []
      case Arr(items) =>
        var r := Dedup(items);
        assert Elems(r) == Elems(items);
        r
  }

  /** The loaded list keeps the first occurrence of each element of the
      session's array, in the array's order. */
  lemma LoadInFirstOrder(req: Request, kind: Kind)
    requires req.session.Some? && Field(req.session.value, kind).Arr?
    ensures InFirstOrder(Load(req, kind), Field(req.session.value, kind).items)
  {
    DedupInFirstOrder(Field(req.session.value, kind).items);
  }

  // ------------------------------------------------------------ persisting

  function LowerAll(items: seq<string>): (r: seq<string>)
    ensures |r| == |items|
    ensures forall k :: 0 <= k < |r| ==> r[k] == Lower(items[k])
  {
    seq(|items|, k requires 0 <= k < |items| => Lower(items[k]))
  }

  /** `persistBlockedKeywords` / `persistBlockedDomains` at clock reading `now`:
      the loaded list united with the lower-cased arguments becomes the
      session's list (when there is a session), and is added to the entry of
      the session key, whose timestamp becomes `now`. Anything but an array
      changes nothing. */
  function Persist(st: Store, kind: Kind, values: JsList, now: int): (r: Store)
    ensures values.NotArray? ==> r == st
    ensures r.req.session.Some? <==> st.req.session.Some?
    ensures SessionKey(r.req) == SessionKey(st.req)
  {
    match values
    case NotArray => st
    case Arr(items) =>
      var combined := Combined(st.req, kind, items);
      var req := match st.req.session
        case None => st.req
        case Some(s) => st.req.(session := Some(WithField(s, kind, Arr(combined))));
      var key := SessionKey(st.req);
      var entry := if key in st.blocks then st.blocks[key] else EmptyEntry;
      Store(req, st.blocks[key := Stamp(entry, kind, Elems(combined), now)])
  }

  /** The entry update of `persist`: one of its sets grows by `added`, and
      it is stamped `now`. */
  function Stamp(e: Entry, kind: Kind, added: set<string>, now: int): (r: Entry)
    ensures EntrySet(r, kind) == EntrySet(e, kind) + added
    ensures forall other: Kind :: other != kind ==> EntrySet(r, other) == EntrySet(e, other)
    ensures r.updatedAt == now
  {
    match kind
    case Keywords => e.(blockedKeywords := e.blockedKeywords + added, updatedAt := now)
    case Domains => e.(blockedDomains := e.blockedDomains + added, updatedAt := now)
  }

  /** `clearBlockedDomains`: both session lists become empty arrays; the
      session itself, its id, the request's ids and the process-wide map are
      left as they are, so the session key does not change. */
  function Clear(st: Store): (r: Store)
    ensures r.blocks == st.blocks
    ensures Load(r.req, Keywords) == [] && Load(r.req, Domains) == []
    ensures st.req.session.None? ==> r == st
    ensures st.req.session.Some? ==>
              r.req.session == Some(st.req.session.value.(blockedKeywords := Arr([]), blockedDomains := Arr([])))
    ensures r.req.sessionID == st.req.sessionID && r.req.ip == st.req.ip
    ensures r.req.session.Some? <==> st.req.session.Some?
    ensures SessionKey(r.req) == SessionKey(st.req)
  {
    match st.req.session
    case None => st
    case Some(s) => st.(req := st.req.(session := Some(s.(blockedKeywords := Arr([]), blockedDomains := Arr([])))))
  }

  // ------------------------------------------------------------ properties

  /** The union `persist` computes, as the list the session receives. */
  function Combined(req: Request, kind: Kind, items: seq<string>): (r: seq<string>)
    ensures NoDup(r)
    ensures Elems(r) == Elems(Load(req, kind)) + Elems(LowerAll(items))
  {
    var r := Dedup(Load(req, kind) + LowerAll(items));
    DedupElems(Load(req, kind) + LowerAll(items));
    ElemsAppend(Load(req, kind), LowerAll(items));
    r
  }

  /** The session receives the loaded values, then the new ones, each at its
      first occurrence. */
  lemma CombinedInFirstOrder(req: Request, kind: Kind, items: seq<string>)
    ensures InFirstOrder(Combined(req, kind, items), Load(req, kind) + LowerAll(items))
  {
    DedupInFirstOrder(Load(req, kind) + LowerAll(items));
  }

  lemma PersistSession(st: Store, kind: Kind, items: seq<string>, now: int)
    requires st.req.session.Some?
    ensures Persist(st, kind, Arr(items), now).req == st.req.(session := Some(WithField(st.req.session.value, kind, Arr(Combined(st.req, kind, items)))))
  {
  }

  /** After persisting, the session's list holds exactly what it held before
      and the lower-cased arguments; the entry of the session key holds what
      it held before and all of those, stamped `now`. */
  lemma PersistUnites(st: Store, kind: Kind, items: seq<string>, now: int)
    ensures var r := Persist(st, kind, Arr(items), now);
            && (st.req.session.Some? ==>
                  Elems(Load(r.req, kind)) == Elems(Load(st.req, kind)) + Elems(LowerAll(items)))
            && SessionKey(st.req) in r.blocks
            && var before := if SessionKey(st.req) in st.blocks then st.blocks[SessionKey(st.req)] else EmptyEntry;
               var after := r.blocks[SessionKey(st.req)];
               && EntrySet(after, kind) == EntrySet(before, kind) + Elems(Load(st.req, kind)) + Elems(LowerAll(items))
               && after.updatedAt == now
  {
    var combined := Combined(st.req, kind, items);
    if st.req.session.Some? {
      PersistSession(st, kind, items, now);
      DedupNoDup(combined);
    }
  }

  /** Persisting leaves the other list alone, in the session and in every
      entry of the process-wide map, and leaves other sessions' entries alone. */
  lemma PersistKeepsOtherKind(st: Store, kind: Kind, values: JsList, now: int, other: Kind)
    requires other != kind
    ensures var r := Persist(st, kind, values, now);
            && Load(r.req, other) == Load(st.req, other)
            && (forall key :: key in st.blocks ==> key in r.blocks && EntrySet(r.blocks[key], other) == EntrySet(st.blocks[key], other))
            && (forall key :: key in st.blocks && key != SessionKey(st.req) ==> r.blocks[key] == st.blocks[key])
  {
  }

  /** Persisting only adds: no session or entry value is lost. */
  lemma PersistGrows(st: Store, kind: Kind, values: JsList, now: int)
    ensures var r := Persist(st, kind, values, now);
            && Elems(Load(st.req, kind)) <= Elems(Load(r.req, kind))
            && (forall key :: key in st.blocks ==> key in r.blocks && EntrySet(st.blocks[key], kind) <= EntrySet(r.blocks[key], kind))
  {
    if values.Arr? {
      PersistUnites(st, kind, values.items, now);
    }
  }

  /** Persisting the same values twice at the same clock reading is
      persisting them once. */
  lemma PersistIdempotent(st: Store, kind: Kind, values: JsList, now: int)
    ensures Persist(Persist(st, kind, values, now), kind, values, now) == Persist(st, kind, values, now)
  {
    if values.Arr? {
      var once := Persist(st, kind, values, now);
      var combined := Combined(st.req, kind, values.items);
      CombinedAgain(st, kind, values.items, now);
      assert Combined(once.req, kind, values.items) == combined;
    }
  }

  /** Uniting the lower-cased arguments with a list that already holds them
      gives that list back. */
  lemma CombinedAgain(st: Store, kind: Kind, items: seq<string>, now: int)
    ensures Combined(Persist(st, kind, Arr(items), now).req, kind, items) == Combined(st.req, kind, items)
  {
    var once := Persist(st, kind, Arr(items), now);
    var combined := Combined(st.req, kind, items);
    var lowered := LowerAll(items);
    if st.req.session.Some? {
      PersistSession(st, kind, items, now);
      DedupNoDup(combined);
      assert Load(once.req, kind) == combined;
      forall x | x in lowered ensures x in combined {
        assert x in Elems(lowered);
      }
      DedupAbsorbs(combined, lowered);
    }
  }

  /** A cleared session loads nothing, whatever persisted before, while the
      process-wide map keeps every entry. */
  lemma ClearKeepsProcessEntries(st: Store, kind: Kind, values: JsList, now: int)
    requires st.req.session.Some?
    ensures var r := Clear(Persist(st, kind, values, now));
            && Load(r.req, kind) == []
            && r.blocks == Persist(st, kind, values, now).blocks
  {
  }
}
