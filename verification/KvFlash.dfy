/** The key-value partition as the database sees it: sectors holding lists of records, changed
    by single word programs and page erases only.

    A record's address is its sector and its position in that sector; `Off` gives the byte
    offset. `Op` lists every change one word program or one page erase can make, `Can` says when
    the database may make it, and `Apply` what it does. A power loss leaves the flash as it is
    between two of these changes. */
module KvFlash {
  import opened KvRecord

  // Geometry: the partition is 126 KB, a sector is one 2 KB page, programming is by 32-bit words.
  const SECTOR_NUM := 63
  const SEC_SIZE := 2048
  const SECTOR_HDR_SIZE := 36
  const REMAIN_THRESHOLD := 104

  datatype Status = Unused | PreWrite | Write | PreDelete | Deleted | ErrHdr
  datatype Store = StoreUnused | Empty | Using | Full
  datatype Dirty = DirtyUnused | Clean | DirtyTrue | DirtyGc

  /** A record slot. `written` counts the words programmed after the status table; a record
      with fewer than `Total` of them was cut off by a power loss or is still being written. */
  datatype Rec = Rec(status: Status, key: Key, val: Val, written: nat)

  /** A sector; `ok` once its header carries the magic word. */
  datatype Sector = Sector(ok: bool, store: Store, dirty: Dirty, recs: seq<Rec>)

  type Flash = seq<Sector>
  datatype Loc = Loc(sec: nat, idx: nat)
  datatype Option<T> = None | Some(value: T)

  function Size(r: Rec): nat { KvSize(r.key, r.val) }

  /** Words after the status table: magic, len, crc, name_len, value_len, name, value. */
  function Total(r: Rec): (n: nat)
    ensures n >= HDR_BODY_WORDS && Size(r) == MAGIC_OFFSET + 4 * n
  {
    BodyWords(r.key, r.val)
  }

  predicate Complete(r: Rec) { r.written == Total(r) }

  // ---------------------------------------------------------------- where slots stand

  /** Readers see a slot when it is the first one or has its magic word. */
  predicate Visible(j: nat, r: Rec) { j == 0 || r.written >= 1 }

  /** What a reader adds up for a slot it sees: its length word, the second one after the status
      table, or one header when that is missing. */
  function Span(r: Rec): (n: nat)
    ensures KV_HDR_SIZE <= n <= Size(r)
  {
    if r.written >= 2 then Size(r) else KV_HDR_SIZE
  }

  /** Bytes of a slot up to the last word in it that does not look erased. */
  function Inked(r: Rec): (n: nat)
    ensures 4 <= n && (r.written <= Total(r) ==> n <= Span(r))
  {
    4 * InkWords(r.key, r.val, r.written)
  }

  /** The offset a traversal reaches by adding up the lengths of the slots it sees. */
  function Counted(recs: seq<Rec>, j: nat): (n: nat)
    requires j <= |recs|
    ensures n >= SECTOR_HDR_SIZE
  {
    if j == 0 then SECTOR_HDR_SIZE
    else Counted(recs, j - 1) + if Visible(j - 1, recs[j - 1]) then Span(recs[j - 1]) else 0
  }

  /** Byte offset in the sector where the `j`-th slot starts: where the traversal found the free
      space to start when the slot was begun, that is where it had counted to, or behind the last
      byte that did not look erased. */
  function Off(recs: seq<Rec>, j: nat): (n: nat)
    requires j <= |recs|
    ensures n >= Counted(recs, j)
  {
    if j == 0 then SECTOR_HDR_SIZE
    else Max(Counted(recs, j), Off(recs, j - 1) + Inked(recs[j - 1]))
  }

  function Max(a: nat, b: nat): nat { if a < b then b else a }

  /** A slot was lost before its magic word, so that a traversal no longer counts to the end. */
  predicate Lags(recs: seq<Rec>) { Counted(recs, |recs|) != Off(recs, |recs|) }

  /** Byte offset of the next free slot, as a traversal finds it. A USING sector with no record
      lost its first one to a power loss; the first reader marks the blank slot as a bad header of
      header size. */
  function End(sec: Sector): (n: nat)
    ensures n >= SECTOR_HDR_SIZE
  {
    if sec.store == Using && sec.recs == [] then SECTOR_HDR_SIZE + KV_HDR_SIZE
    else Off(sec.recs, |sec.recs|)
  }

  /** The slot a reader leaves behind in a USING sector that holds no record. */
  const BLANK := Rec(ErrHdr, [], [], 0)

  // ---------------------------------------------------------------- well-formed flash

  predicate Committed(st: Status) { st == Write || st == PreDelete || st == Deleted }

  predicate RecShape(r: Rec) {
    && r.status != Unused && |r.key| < KV_NAME_MAX && r.written <= Total(r)
    && (Committed(r.status) ==> Complete(r))
  }

  /** Every slot leaves more than the reserve threshold free behind its full size, and was begun
      where the traversal had counted to, unless its record ends in a word that does not look
      erased: so no later slot reaches into a finished record. */
  predicate Reserved(recs: seq<Rec>) {
    forall j {:trigger SlotReserved(recs, j)} :: 0 <= j < |recs| ==> SlotReserved(recs, j)
  }

  predicate SlotReserved(recs: seq<Rec>, j: int) {
    && 0 <= j < |recs| && Off(recs, j) + Size(recs[j]) + REMAIN_THRESHOLD < SEC_SIZE
    && (Off(recs, j) == Counted(recs, j) || Solid(recs[j].key, recs[j].val))
  }

  predicate SectorShape(sec: Sector) {
    && (sec.recs != [] ==> sec.ok && sec.store == Using)
    && (sec.ok ==> (sec.store == Empty || sec.store == Using) && sec.dirty != DirtyUnused)
    && (sec.ok && sec.store == Empty ==> sec.dirty == Clean)
    && (!sec.ok ==> (sec.store == StoreUnused || sec.store == Empty)
                    && (sec.dirty == DirtyUnused || sec.dirty == Clean))
    && (forall j :: 0 <= j < |sec.recs| ==> RecShape(sec.recs[j]))
    && Reserved(sec.recs)
  }

  predicate Shape(f: Flash) {
    |f| == SECTOR_NUM && forall s {:trigger SectorShape(f[s])} :: 0 <= s < |f| ==> SectorShape(f[s])
  }

  // ---------------------------------------------------------------- records and the map they hold

  predicate In(f: Flash, l: Loc) { l.sec < |f| && l.idx < |f[l.sec].recs| }

  function Get(f: Flash, l: Loc): Rec
    requires In(f, l)
  {
    f[l.sec].recs[l.idx]
  }

  predicate Is(f: Flash, l: Loc, st: Status) { In(f, l) && Get(f, l).status == st }

  /** `w` is the index of the records with status `st`: one per key, and every one of them. */
  ghost predicate Index(f: Flash, st: Status, w: map<Key, Loc>) {
    && (forall l {:trigger Is(f, l, st)} :: Is(f, l, st) ==> Get(f, l).key in w && w[Get(f, l).key] == l)
    && (forall k :: k in w ==> Is(f, w[k], st) && Get(f, w[k]).key == k)
  }

  ghost predicate Indexed(f: Flash, w: map<Key, Loc>, p: map<Key, Loc>) {
    Index(f, Write, w) && Index(f, PreDelete, p)
  }

  ghost function Locs(f: Flash): set<Loc> {
    set s: nat, j: nat | s < |f| && j < |f[s].recs| :: Loc(s, j)
  }

  ghost predicate Holds(f: Flash, l: Loc, st: Status, k: Key) { Is(f, l, st) && Get(f, l).key == k }

  ghost function LiveKeys(f: Flash): set<Key> {
    set l | l in Locs(f) && (Is(f, l, Write) || Is(f, l, PreDelete)) :: Get(f, l).key
  }

  /** What the flash says about `k`: its WRITE record's value, else its PRE_DELETE record's. */
  ghost function ValueAt(f: Flash, k: Key): Val
    requires exists l :: Holds(f, l, Write, k) || Holds(f, l, PreDelete, k)
  {
    if exists l :: Holds(f, l, Write, k) then
      var l :| Holds(f, l, Write, k); Get(f, l).val
    else
      var l :| Holds(f, l, PreDelete, k); Get(f, l).val
  }

  lemma LiveKeyHasRecord(f: Flash, k: Key)
    ensures k in LiveKeys(f) <==> exists l :: Holds(f, l, Write, k) || Holds(f, l, PreDelete, k)
  {
    if l :| Holds(f, l, Write, k) || Holds(f, l, PreDelete, k) {
      assert l in Locs(f);
    }
    if k in LiveKeys(f) {
      var l :| l in Locs(f) && (Is(f, l, Write) || Is(f, l, PreDelete)) && Get(f, l).key == k;
      assert Holds(f, l, Write, k) || Holds(f, l, PreDelete, k);
    }
  }

  /** The map a restart can read from the flash alone. */
  ghost function Recoverable(f: Flash): map<Key, Val> {
    map k | k in LiveKeys(f) :: (LiveKeyHasRecord(f, k); ValueAt(f, k))
  }

  /** The same map computed from the indexes. */
  ghost function MapOf(f: Flash, w: map<Key, Loc>, p: map<Key, Loc>): map<Key, Val>
    requires Indexed(f, w, p)
  {
    map k | k in w.Keys + p.Keys :: if k in w then Get(f, w[k]).val else Get(f, p[k]).val
  }

  lemma ValueIsIndexed(f: Flash, w: map<Key, Loc>, p: map<Key, Loc>, k: Key)
    requires Indexed(f, w, p) && k in w.Keys + p.Keys
    ensures exists l :: Holds(f, l, Write, k) || Holds(f, l, PreDelete, k)
    ensures ValueAt(f, k) == MapOf(f, w, p)[k]
  {
    if k in w {
      assert Holds(f, w[k], Write, k);
    } else {
      assert Holds(f, p[k], PreDelete, k);
    }
  }

  lemma LiveIsIndexed(f: Flash, w: map<Key, Loc>, p: map<Key, Loc>, k: Key)
    requires Indexed(f, w, p)
    ensures k in LiveKeys(f) <==> k in w.Keys + p.Keys
  {
    LiveKeyHasRecord(f, k);
    if k in w { assert Holds(f, w[k], Write, k); }
    if k in p { assert Holds(f, p[k], PreDelete, k); }
  }

  lemma RecoverableIsMapOf(f: Flash, w: map<Key, Loc>, p: map<Key, Loc>)
    requires Indexed(f, w, p)
    ensures Recoverable(f) == MapOf(f, w, p)
  {
    hide LiveKeys, ValueAt, Indexed, Index, Is, Holds;
    forall k ensures k in Recoverable(f) <==> k in MapOf(f, w, p) {
      LiveIsIndexed(f, w, p, k);
    }
    forall k | k in Recoverable(f) ensures Recoverable(f)[k] == MapOf(f, w, p)[k] {
      LiveIsIndexed(f, w, p, k);
      ValueIsIndexed(f, w, p, k);
    }
  }

  // ---------------------------------------------------------------- one-word changes

  datatype Op =
    | OpUsing(s: nat)                                          // store status EMPTY -> USING
    | OpDirty(s: nat, d: Dirty)                                // dirty status forward
    | OpBegin(s: nat, key: Key, val: Val, blank: bool)         // PRE_WRITE mark of a new record
    | OpWord(s: nat)                                           // next word of the last record
    | OpStatus(l: Loc, st: Status)                             // record status forward
    | OpErase(s: nat)                                          // page erase
    | OpHdrStore(s: nat)                                       // header: EMPTY mark
    | OpHdrDirty(s: nat)                                       // header: DIRTY_FALSE mark
    | OpHdrMagic(s: nat)                                       // header: magic word

  predicate Forward(a: Status, b: Status) {
    || (a == PreWrite && (b == Write || b == ErrHdr))
    || (a == Write && (b == PreDelete || b == Deleted))
    || (a == PreDelete && b == Deleted)
  }

  function Rank(d: Dirty): nat {
    match d case DirtyUnused => 0 case Clean => 1 case DirtyTrue => 2 case DirtyGc => 3
  }

  /** The slots before a new record; `blank` when it follows a slot lost before its first word. */
  function Before(sec: Sector, blank: bool): seq<Rec> {
    if blank then [BLANK] else sec.recs
  }

  function Begun(sec: Sector, key: Key, val: Val, blank: bool): seq<Rec> {
    Before(sec, blank) + [Rec(PreWrite, key, val, 0)]
  }

  /** Byte offset at which a new record starts. */
  function Start(sec: Sector, blank: bool): nat {
    if blank then SECTOR_HDR_SIZE + KV_HDR_SIZE else Off(sec.recs, |sec.recs|)
  }

  /** A record can be put behind the slots without a later one reaching into it. */
  predicate Placeable(recs: seq<Rec>, key: Key, val: Val) { !Lags(recs) || Solid(key, val) }

  predicate Can(f: Flash, op: Op) {
    match op
    case OpUsing(s) => s < |f| && f[s].ok && f[s].store == Empty
    case OpDirty(s, d) => s < |f| && f[s].ok && f[s].store == Using && Rank(f[s].dirty) <= Rank(d)
    case OpBegin(s, key, val, blank) =>
      && s < |f| && f[s].ok && f[s].store == Using && |key| < KV_NAME_MAX
      && (blank ==> f[s].recs == [])
      && Start(f[s], blank) + KvSize(key, val) + REMAIN_THRESHOLD < SEC_SIZE
      && Placeable(f[s].recs, key, val)
    case OpWord(s) =>
      && s < |f| && f[s].recs != []
      && var r := f[s].recs[|f[s].recs| - 1]; r.status == PreWrite && r.written < Total(r)
    case OpStatus(l, st) =>
      && In(f, l) && Forward(Get(f, l).status, st)
      && (st == Write ==> Complete(Get(f, l)))
      && (st == ErrHdr ==> Get(f, l).written >= 2)
    case OpErase(s) => s < |f|
    case OpHdrStore(s) => s < |f| && f[s] == Sector(false, StoreUnused, DirtyUnused, [])
    case OpHdrDirty(s) => s < |f| && f[s] == Sector(false, Empty, DirtyUnused, [])
    case OpHdrMagic(s) => s < |f| && f[s] == Sector(false, Empty, Clean, [])
  }

  function SecOf(op: Op): nat {
    match op
    case OpStatus(l, _) => l.sec
    case _ => op.s
  }

  function NewSector(f: Flash, op: Op): Sector
    requires Can(f, op)
  {
    match op
    case OpUsing(s) => f[s].(store := Using)
    case OpDirty(s, d) => f[s].(dirty := d)
    case OpBegin(s, key, val, blank) => f[s].(recs := Begun(f[s], key, val, blank))
    case OpWord(s) =>
      var n := |f[s].recs| - 1;
      f[s].(recs := f[s].recs[n := f[s].recs[n].(written := f[s].recs[n].written + 1)])
    case OpStatus(l, st) =>
      f[l.sec].(recs := f[l.sec].recs[l.idx := Get(f, l).(status := st)])
    case OpErase(s) => Sector(false, StoreUnused, DirtyUnused, [])
    case OpHdrStore(s) => f[s].(store := Empty)
    case OpHdrDirty(s) => f[s].(dirty := Clean)
    case OpHdrMagic(s) => f[s].(ok := true)
  }

  function Apply(f: Flash, op: Op): (f': Flash)
    requires Can(f, op)
    ensures |f'| == |f|
  {
    f[SecOf(op) := NewSector(f, op)]
  }

  // ---------------------------------------------------------------- offsets

  /** Two slots take the same place. */
  predicate SamePlace(a: Rec, b: Rec) { a.key == b.key && a.val == b.val && a.written == b.written }

  /** Offsets depend only on what was programmed before them. */
  lemma {:induction false} OffSame(a: seq<Rec>, b: seq<Rec>, j: nat)
    requires j <= |a| && j <= |b|
    requires forall i :: 0 <= i < j ==> SamePlace(a[i], b[i])
    ensures Off(a, j) == Off(b, j) && Counted(a, j) == Counted(b, j)
  {
    if j > 0 { OffSame(a, b, j - 1); }
  }

  lemma {:induction false} OffMono(recs: seq<Rec>, i: nat, j: nat)
    requires i <= j <= |recs|
    ensures Off(recs, i) <= Off(recs, j) && Counted(recs, i) <= Counted(recs, j)
    decreases j
  {
    if i < j { OffMono(recs, i, j - 1); }
  }

  lemma OffAppend(recs: seq<Rec>, r: Rec, j: nat)
    requires j <= |recs|
    ensures Off(recs + [r], j) == Off(recs, j) && Counted(recs + [r], j) == Counted(recs, j)
  {
    OffSame(recs + [r], recs, j);
  }

  /** One slot further, never by more than its span. */
  lemma OffStep(recs: seq<Rec>, j: nat)
    requires j < |recs| && recs[j].written <= Total(recs[j])
    ensures Off(recs, j) + Inked(recs[j]) <= Off(recs, j + 1) <= Off(recs, j) + Span(recs[j])
    ensures !Visible(j, recs[j]) ==> Off(recs, j + 1) == Off(recs, j) + 4 && Counted(recs, j + 1) == Counted(recs, j)
    ensures Visible(j, recs[j]) && Off(recs, j) == Counted(recs, j) ==>
              Off(recs, j + 1) == Counted(recs, j + 1) == Off(recs, j) + Span(recs[j])
  {
  }

  /** A finished record keeps all its bytes. */
  lemma WholeStep(recs: seq<Rec>, j: nat)
    requires j < |recs| && Complete(recs[j]) && SlotReserved(recs, j)
    ensures Off(recs, j + 1) == Off(recs, j) + Size(recs[j])
  {
    OffStep(recs, j);
    if Off(recs, j) != Counted(recs, j) { InkBounds(recs[j].key, recs[j].val, recs[j].written); }
  }

  /** A well-formed sector always has more than the reserve threshold left. */
  lemma EndReserved(sec: Sector)
    requires SectorShape(sec)
    ensures End(sec) + REMAIN_THRESHOLD < SEC_SIZE
  {
    if sec.recs != [] {
      var n := |sec.recs| - 1;
      assert SlotReserved(sec.recs, n) && RecShape(sec.recs[n]);
      OffStep(sec.recs, n);
    }
  }

  // ---------------------------------------------------------------- every change keeps the shape

  lemma AppendReserved(recs: seq<Rec>, r: Rec)
    requires Reserved(recs) && Off(recs, |recs|) + Size(r) + REMAIN_THRESHOLD < SEC_SIZE && Placeable(recs, r.key, r.val)
    ensures Reserved(recs + [r])
  {
    forall j | 0 <= j < |recs + [r]| ensures SlotReserved(recs + [r], j) {
      OffAppend(recs, r, j);
      if j < |recs| { assert SlotReserved(recs, j); }
    }
  }

  lemma BlankReserved()
    ensures Off([BLANK], 1) == Counted([BLANK], 1) == SECTOR_HDR_SIZE + KV_HDR_SIZE && Reserved([BLANK])
  {
    OffStep([BLANK], 0);
    assert SlotReserved([BLANK], 0);
  }

  lemma BeginReserved(sec: Sector, key: Key, val: Val, blank: bool)
    requires Reserved(sec.recs) && (blank ==> sec.recs == [])
    requires Start(sec, blank) + KvSize(key, val) + REMAIN_THRESHOLD < SEC_SIZE && Placeable(sec.recs, key, val)
    ensures Reserved(Begun(sec, key, val, blank))
  {
    BlankReserved();
    AppendReserved(Before(sec, blank), Rec(PreWrite, key, val, 0));
  }

  lemma UpdateShape(recs: seq<Rec>, n: nat, r: Rec)
    requires n < |recs| && Reserved(recs)
    requires r.key == recs[n].key && r.val == recs[n].val
    requires r.written == recs[n].written || n == |recs| - 1
    ensures Reserved(recs[n := r])
  {
    forall j: int {:trigger SlotReserved(recs[n := r], j)} | 0 <= j < |recs| ensures SlotReserved(recs[n := r], j) {
      assert SlotReserved(recs, j);
      OffSame(recs[n := r], recs, j);
    }
  }

  lemma NewSectorShape(f: Flash, op: Op)
    requires Can(f, op) && SectorShape(f[SecOf(op)])
    ensures SectorShape(NewSector(f, op))
  {
    var sec := f[SecOf(op)];
    match op
    case OpBegin(_, key, val, blank) => BeginReserved(sec, key, val, blank);
    case OpWord(_) =>
      var n := |sec.recs| - 1;
      UpdateShape(sec.recs, n, sec.recs[n].(written := sec.recs[n].written + 1));
    case OpStatus(l, st) => UpdateShape(sec.recs, l.idx, Get(f, l).(status := st));
    case _ =>
  }

  lemma ShapeStep(f: Flash, op: Op)
    requires Shape(f) && Can(f, op)
    ensures Shape(Apply(f, op))
  {
    NewSectorShape(f, op);
  }

  // ---------------------------------------------------------------- what each change does to the map

  function SetStatus(f: Flash, l: Loc, st: Status): Flash
    requires In(f, l)
  {
    f[l.sec := f[l.sec].(recs := f[l.sec].recs[l.idx := Get(f, l).(status := st)])]
  }

  lemma SetStatusIs(f: Flash, l: Loc, st: Status, x: Loc, xs: Status)
    requires In(f, l)
    ensures Is(SetStatus(f, l, st), x, xs) <==> if x == l then xs == st else Is(f, x, xs)
    ensures In(SetStatus(f, l, st), x) <==> In(f, x)
    ensures In(f, x) ==> Get(SetStatus(f, l, st), x).key == Get(f, x).key
                         && Get(SetStatus(f, l, st), x).val == Get(f, x).val
  {
  }

  /** A record gains the status `st`; the index of `st` gains its key. */
  lemma IndexGain(f: Flash, l: Loc, st: Status, w: map<Key, Loc>)
    requires In(f, l) && Index(f, st, w) && Get(f, l).key !in w
    ensures Index(SetStatus(f, l, st), st, w[Get(f, l).key := l])
  {
    var f' := SetStatus(f, l, st);
    forall x ensures Is(f', x, st) <==> (x == l || Is(f, x, st))
      ensures In(f, x) ==> In(f', x) && Get(f', x).key == Get(f, x).key
    {
      SetStatusIs(f, l, st, x, st);
    }
  }

  /** A record leaves the status `xs`; the index of `xs` loses its key. */
  lemma IndexLose(f: Flash, l: Loc, st: Status, xs: Status, w: map<Key, Loc>)
    requires Is(f, l, xs) && xs != st && Index(f, xs, w)
    ensures Index(SetStatus(f, l, st), xs, w - {Get(f, l).key})
  {
    var f' := SetStatus(f, l, st);
    forall x ensures Is(f', x, xs) <==> (x != l && Is(f, x, xs))
      ensures In(f, x) ==> In(f', x) && Get(f', x).key == Get(f, x).key
    {
      SetStatusIs(f, l, st, x, xs);
    }
  }

  /** Neither side of the change has the status `xs`. */
  lemma IndexKeep(f: Flash, l: Loc, st: Status, xs: Status, w: map<Key, Loc>)
    requires In(f, l) && Get(f, l).status != xs && xs != st && Index(f, xs, w)
    ensures Index(SetStatus(f, l, st), xs, w)
  {
    var f' := SetStatus(f, l, st);
    forall x ensures Is(f', x, xs) <==> Is(f, x, xs)
      ensures In(f, x) ==> In(f', x) && Get(f', x).key == Get(f, x).key
    {
      SetStatusIs(f, l, st, x, xs);
    }
  }

  lemma SetStatusVal(f: Flash, l: Loc, st: Status)
    requires In(f, l)
    ensures forall x :: In(f, x) ==> In(SetStatus(f, l, st), x) && Get(SetStatus(f, l, st), x).val == Get(f, x).val
  {
    forall x | In(f, x) ensures In(SetStatus(f, l, st), x) && Get(SetStatus(f, l, st), x).val == Get(f, x).val {
      SetStatusIs(f, l, st, x, st);
    }
  }

  lemma MapOfIs(f: Flash, w: map<Key, Loc>, p: map<Key, Loc>, m: map<Key, Val>)
    requires Indexed(f, w, p)
    requires forall k :: k in m <==> k in w || k in p
    requires forall k :: k in w ==> m[k] == Get(f, w[k]).val
    requires forall k :: k in p && k !in w ==> m[k] == Get(f, p[k]).val
    ensures MapOf(f, w, p) == m
  {
  }

  /** Completing a record makes its value the key's value. */
  lemma CommitStep(f: Flash, l: Loc, w: map<Key, Loc>, p: map<Key, Loc>)
    requires Is(f, l, PreWrite) && Indexed(f, w, p) && Get(f, l).key !in w
    ensures var f' := SetStatus(f, l, Write); var r := Get(f, l);
      && Indexed(f', w[r.key := l], p)
      && MapOf(f', w[r.key := l], p) == MapOf(f, w, p)[r.key := r.val]
  {
    IndexGain(f, l, Write, w);
    IndexKeep(f, l, Write, PreDelete, p);
    SetStatusVal(f, l, Write);
    var r := Get(f, l);
    MapOfIs(SetStatus(f, l, Write), w[r.key := l], p, MapOf(f, w, p)[r.key := r.val]);
  }

  /** Marking a record for deletion changes nothing a restart would read. */
  lemma PreDeleteStep(f: Flash, l: Loc, w: map<Key, Loc>, p: map<Key, Loc>)
    requires Is(f, l, Write) && Indexed(f, w, p) && Get(f, l).key !in p
    ensures var f' := SetStatus(f, l, PreDelete); var k := Get(f, l).key;
      && Indexed(f', w - {k}, p[k := l])
      && MapOf(f', w - {k}, p[k := l]) == MapOf(f, w, p)
  {
    IndexLose(f, l, PreDelete, Write, w);
    IndexGain(f, l, PreDelete, p);
    SetStatusVal(f, l, PreDelete);
    MapOfIs(SetStatus(f, l, PreDelete), w - {Get(f, l).key}, p[Get(f, l).key := l], MapOf(f, w, p));
  }

  /** Deleting a WRITE record removes its key, if and only if no PRE_DELETE record still holds it; else the
      key has that record's value again. */
  lemma DeleteWriteStep(f: Flash, l: Loc, w: map<Key, Loc>, p: map<Key, Loc>)
    requires Is(f, l, Write) && Indexed(f, w, p)
    ensures var f' := SetStatus(f, l, Deleted); var k := Get(f, l).key;
      && Indexed(f', w - {k}, p) && (k in p ==> In(f, p[k]))
      && MapOf(f', w - {k}, p) == if k in p then MapOf(f, w, p)[k := Get(f, p[k]).val] else MapOf(f, w, p) - {k}
  {
    IndexLose(f, l, Deleted, Write, w);
    IndexKeep(f, l, Deleted, PreDelete, p);
    SetStatusVal(f, l, Deleted);
    var k := Get(f, l).key;
    var m := if k in p then MapOf(f, w, p)[k := Get(f, p[k]).val] else MapOf(f, w, p) - {k};
    MapOfIs(SetStatus(f, l, Deleted), w - {k}, p, m);
  }

  /** Deleting a PRE_DELETE record whose key has a WRITE record changes nothing. */
  lemma DeleteOldStep(f: Flash, l: Loc, w: map<Key, Loc>, p: map<Key, Loc>)
    requires Is(f, l, PreDelete) && Indexed(f, w, p) && Get(f, l).key in w
    ensures var f' := SetStatus(f, l, Deleted); var k := Get(f, l).key;
      && Indexed(f', w, p - {k})
      && MapOf(f', w, p - {k}) == MapOf(f, w, p)
  {
    IndexLose(f, l, Deleted, PreDelete, p);
    IndexKeep(f, l, Deleted, Write, w);
    SetStatusVal(f, l, Deleted);
    MapOfIs(SetStatus(f, l, Deleted), w, p - {Get(f, l).key}, MapOf(f, w, p));
  }

  /** A change that keeps every committed record where it is keeps the map. */
  ghost predicate SameCommitted(f: Flash, f': Flash) {
    forall l, st {:trigger Is(f', l, st)} {:trigger Is(f, l, st)} :: st == Write || st == PreDelete ==>
      && (Is(f', l, st) <==> Is(f, l, st))
      && (Is(f, l, st) ==> Get(f', l).key == Get(f, l).key && Get(f', l).val == Get(f, l).val)
  }

  lemma SameCommittedStep(f: Flash, f': Flash, w: map<Key, Loc>, p: map<Key, Loc>)
    requires Indexed(f, w, p) && SameCommitted(f, f')
    ensures Indexed(f', w, p) && MapOf(f', w, p) == MapOf(f, w, p)
  {
    MapOfIs(f', w, p, MapOf(f, w, p));
  }

  predicate NoLive(sec: Sector) {
    forall j :: 0 <= j < |sec.recs| ==> sec.recs[j].status != Write && sec.recs[j].status != PreDelete
  }

  /** Changes that touch no committed record. */
  predicate Quiet(f: Flash, op: Op) {
    && (op.OpStatus? ==> op.st == ErrHdr)
    && (op.OpErase? ==> op.s < |f| && NoLive(f[op.s]))
  }

  lemma QuietSector(f: Flash, op: Op, j: nat, st: Status)
    requires Can(f, op) && Quiet(f, op) && (st == Write || st == PreDelete)
    ensures var a, b := f[SecOf(op)].recs, NewSector(f, op).recs;
      && ((j < |a| && a[j].status == st) <==> (j < |b| && b[j].status == st))
      && (j < |a| && a[j].status == st ==> b[j].key == a[j].key && b[j].val == a[j].val)
  {
    match op
    case OpBegin(s, key, val, blank) =>
      var a, b := f[s].recs, Begun(f[s], key, val, blank);
      if j < |a| { assert b[j] == a[j]; }
      if j < |b| - 1 && blank { assert b[j] == BLANK; }
    case _ =>
  }

  lemma QuietStep(f: Flash, op: Op, w: map<Key, Loc>, p: map<Key, Loc>)
    requires Can(f, op) && Quiet(f, op) && Indexed(f, w, p)
    ensures Indexed(Apply(f, op), w, p) && SameCommitted(f, Apply(f, op))
    ensures MapOf(Apply(f, op), w, p) == MapOf(f, w, p)
  {
    var f' := Apply(f, op);
    forall l, st | st == Write || st == PreDelete
      ensures Is(f', l, st) <==> Is(f, l, st)
      ensures Is(f, l, st) ==> Get(f', l).key == Get(f, l).key && Get(f', l).val == Get(f, l).val
    {
      if l.sec == SecOf(op) { QuietSector(f, op, l.idx, st); }
    }
    SameCommittedStep(f, f', w, p);
  }
}
