/** Where the C archive client leaves its files: directories as finite maps, files with an identity. */
module FileDisposition {
  import opened Optional
  import opened ArchiveQueue

  const STAT_EXT := "___STATUS.xml"

  datatype Dir = Queue | Archived | Bad
  datatype Path = Path(dir: Dir, name: string)

  type File = nat

  /** What the XML readers find in a status document: None for a missing attribute. */
  datatype Doc = Doc(fileId: Option<string>, fileVersion: Option<string>, message: Option<string>)

  datatype Node = Data(f: File) | StatusDoc(d: Doc)

  datatype Reply = Reply(failed: bool, errorCode: int, status: string, message: string, doc: Doc)

  /** Why a file may go: a successful archive reply, or a check of the file its own document names. */
  datatype Evidence = Stored(reply: Reply) | Checked(doc: Doc, message: string)

  /** Configuration: the clean-up mode and the texts of the directories. */
  datatype Config = Config(immediateCleanUp: bool, queueDir: string, archDir: string, badDir: string)

  /** The directories, the files ever put into the queue, the evidence seen for them, and the document
      that came with the reply each was moved on. */
  datatype State = State(
    nodes: map<Path, Node>,
    known: set<File>,
    evidence: map<File, Evidence>,
    moved: map<File, Doc>)

  /** strstr(s, t) != NULL */
  predicate Contains(s: string, t: string) {
    t <= s || (s != "" && Contains(s[1..], t))
  }

  predicate IsSuccess(r: Reply) {
    !r.failed && r.errorCode == 0 && !Contains(r.status, "FAILURE")
  }

  predicate IsBad(r: Reply) {
    Contains(r.message, "NGAMS_ER_DAPI_BAD_FILE") || Contains(r.message, "NGAMS_ER_UNKNOWN_MIME_TYPE1")
  }

  predicate IsBuffered(r: Reply) {
    Contains(r.message, "NGAMS_WA_BUF_DATA")
  }

  function DirText(c: Config, d: Dir): string {
    match d
    case Queue => c.queueDir
    case Archived => c.archDir
    case Bad => c.badDir
  }

  /** Does the path fit into a file name buffer? */
  predicate Fits(c: Config, p: Path) {
    |DirText(c, p.dir)| + 1 + |p.name| < MED_BUF
  }

  function DocPath(p: Path): Path {
    Path(p.dir, p.name + STAT_EXT)
  }

  function HiddenPath(base: string): Path {
    Path(Queue, ".REMOVED_" + base)
  }

  function Target(dir: Dir, isoTime: string, base: string): Path {
    Path(dir, isoTime + "___" + base)
  }

  // ------------------------------------------------------------- archiving a file

  /** One attempt: the reply, the time stamp of a move, and which operations of the system succeed. */
  datatype Attempt = Attempt(checksumOk: bool, reply: Reply, isoTime: string, renameOk: bool, saveOk: bool, removeOk: bool)

  function Renamed(nodes: map<Path, Node>, p: Path, q: Path): map<Path, Node>
    requires p in nodes
  {
    (nodes - {p})[q := nodes[p]]
  }

  /** ngamsMoveFile2StatDir: the new state and whether it succeeded. */
  function Moved(c: Config, s: State, dir: Dir, base: string, a: Attempt): (State, bool)
    requires Path(Queue, base) in s.nodes && s.nodes[Path(Queue, base)].Data?
  {
    var q := Target(dir, a.isoTime, base);
    if !Fits(c, q) || !Fits(c, DocPath(q)) || !a.renameOk then (s, false)
    else
      var nodes := Renamed(s.nodes, Path(Queue, base), q);
      var moved := s.moved[s.nodes[Path(Queue, base)].f := a.reply.doc];
      if a.saveOk then (s.(nodes := nodes[DocPath(q) := StatusDoc(a.reply.doc)], moved := moved), true)
      else (s.(nodes := nodes, moved := moved), false)
  }

  /** Rename, then remove; neither result is looked at. */
  function Removed(s: State, base: string, a: Attempt): State
    requires Path(Queue, base) in s.nodes && s.nodes[Path(Queue, base)].Data?
  {
    var h := HiddenPath(base);
    var nodes := if a.renameOk then Renamed(s.nodes, Path(Queue, base), h) else s.nodes;
    s.(nodes := if a.removeOk then nodes - {h} else nodes,
       evidence := s.evidence[s.nodes[Path(Queue, base)].f := Stored(a.reply)])
  }

  /** ngamsArchiveFile: the new state, and whether it got as far as releasing the queue entry. */
  function Attempted(c: Config, s: State, base: string, a: Attempt): (State, bool)
    requires Path(Queue, base) in s.nodes && s.nodes[Path(Queue, base)].Data?
  {
    if !a.checksumOk then (s, false)
    else if !IsSuccess(a.reply) then
      if IsBad(a.reply) then Moved(c, s, Bad, base, a)
      else if IsBuffered(a.reply) then Moved(c, s, Archived, base, a)
      else (s, true)
    else if c.immediateCleanUp then
      if !Fits(c, HiddenPath(base)) then (s, false) else (Removed(s, base, a), true)
    else Moved(c, s, Archived, base, a)
  }

  // ------------------------------------------------------------------- cleaning up

  /** One entry of the Archived Files Directory: time, check reply, operations that succeed. */
  datatype Check = Check(elapsed: bool, loadOk: bool, sendOk: bool, message: string, removeOk: bool, removeDocOk: bool)

  predicate IsHandled(name: string) {
    name != "" && name[0] != '.' && !Contains(name, STAT_EXT)
  }

  /** The document of an archived file, None where the clean-up gives up. */
  function LoadedDoc(c: Config, s: State, name: string, o: Check): Option<Doc> {
    var p := Path(Archived, name);
    if !Fits(c, p) || !Fits(c, DocPath(p)) || DocPath(p) !in s.nodes || !o.loadOk then None
    else
      match s.nodes[DocPath(p)]
      case StatusDoc(d) => Some(d)
      case Data(_) => None
  }

  predicate HasIds(d: Doc) {
    d.fileId.Some? && d.fileVersion.Some? && d.fileId.value != "" && d.fileVersion.value != ""
  }

  /** One turn of the loop in ngamsCleanUpArchivedFiles: the new state, and whether the loop goes on. */
  function Cleaned(c: Config, s: State, name: string, o: Check): (State, bool)
    requires Path(Archived, name) in s.nodes
  {
    var p := Path(Archived, name);
    if !IsHandled(name) then (s, true)
    else if !Fits(c, p) || !Fits(c, DocPath(p)) || DocPath(p) !in s.nodes then (s, false)
    else if !o.elapsed then (s, true)
    else
      var doc := LoadedDoc(c, s, name, o);
      if doc.None? || doc.value.fileId.None? || doc.value.fileVersion.None? then (s, false)
      else if !HasIds(doc.value) then (s, doc.value.message.Some?)
      else if !o.sendOk || !Contains(o.message, "NGAMS_INFO_FILE_OK") then (s, true)
      else
        var nodes := if o.removeOk then s.nodes - {p} else s.nodes;
        (s.(nodes := if o.removeDocOk then nodes - {DocPath(p)} else nodes,
            evidence := if s.nodes[p].Data? then s.evidence[s.nodes[p].f := Checked(doc.value, o.message)]
                        else s.evidence), true)
  }

  /** A pass over the entries of the directory, given up at the first that cannot be read. */
  function CleanedAll(c: Config, s: State, names: seq<string>, checks: seq<Check>): (State, bool)
    requires |names| == |checks|
    decreases |names|
  {
    if names == [] then (s, true)
    else if Path(Archived, names[0]) !in s.nodes then CleanedAll(c, s, names[1..], checks[1..])
    else
      var (t, on) := Cleaned(c, s, names[0], checks[0]);
      if on then CleanedAll(c, t, names[1..], checks[1..]) else (t, false)
  }

  // ------------------------------------------------------------------------ runs

  datatype Event =
    | Arrive(name: string, f: File)       // a user puts a file into the queue directory
    | Try(base: string, a: Attempt)       // an archive thread handles it
    | Clean(name: string, o: Check)       // the clean-up thread reaches an archived entry

  predicate Visible(name: string) {
    name != "" && name[0] != '.'
  }

  /** Where an attempt moves its file, if it does. */
  function MoveTarget(c: Config, base: string, a: Attempt): Option<Path> {
    if !a.checksumOk then None
    else if !IsSuccess(a.reply) then
      if IsBad(a.reply) then Some(Target(Bad, a.isoTime, base))
      else if IsBuffered(a.reply) then Some(Target(Archived, a.isoTime, base))
      else None
    else if c.immediateCleanUp then None
    else Some(Target(Archived, a.isoTime, base))
  }

  predicate HasFile(s: State, p: Path) {
    p in s.nodes && s.nodes[p].Data?
  }

  predicate Enabled(c: Config, s: State, e: Event) {
    match e
    case Arrive(name, f) => f !in s.known && Path(Queue, name) !in s.nodes && Visible(name)
    case Try(base, _) => HasFile(s, Path(Queue, base)) && Visible(base)
    case Clean(name, _) => Path(Archived, name) in s.nodes
  }

  /** Does the move get as far as writing? */
  predicate Moves(c: Config, q: Path, a: Attempt) {
    Fits(c, q) && Fits(c, DocPath(q)) && a.renameOk
  }

  /** No file there, or one the archive is known to have. */
  predicate Expendable(s: State, p: Path) {
    HasFile(s, p) ==> s.nodes[p].f in s.evidence
  }

  /** Among archived files, no document but a file's own may come to stand beside it: none is left where
      its own could not be saved, and no file takes the place of another's document. */
  ghost predicate DocsStay(s: State, q: Path, d: Doc, saved: bool) {
    q.dir == Archived ==>
      && (!saved ==> DocPath(q) !in s.nodes || s.nodes[DocPath(q)] == StatusDoc(d))
      && forall p :: HasFile(s, p) ==> DocPath(p) != q
  }

  /** What may stand where a move to q writes: nothing that is needed. */
  ghost predicate Harmless(s: State, q: Path, a: Attempt) {
    && Expendable(s, q) && (a.saveOk ==> Expendable(s, DocPath(q)))
    && DocsStay(s, q, a.reply.doc, a.saveOk)
  }

  ghost predicate HarmlessEvent(c: Config, s: State, e: Event) {
    e.Try? ==>
      var q := MoveTarget(c, e.base, e.a);
      q.Some? && Moves(c, q.value, e.a) ==> Harmless(s, q.value, e.a)
  }

  function Apply(c: Config, s: State, e: Event): State
    requires Enabled(c, s, e)
  {
    match e
    case Arrive(name, f) => s.(nodes := s.nodes[Path(Queue, name) := Data(f)], known := s.known + {f})
    case Try(base, a) => Attempted(c, s, base, a).0
    case Clean(name, o) => Cleaned(c, s, name, o).0
  }

  predicate Legal(c: Config, s: State, events: seq<Event>)
    decreases |events|
  {
    events != [] ==> Enabled(c, s, events[0]) && Legal(c, Apply(c, s, events[0]), events[1..])
  }

  function Exec(c: Config, s: State, events: seq<Event>): State
    requires Legal(c, s, events)
    decreases |events|
  {
    if events == [] then s else Exec(c, Apply(c, s, events[0]), events[1..])
  }

  /** Every move of the run is harmless where it is made. */
  ghost predicate AllHarmless(c: Config, s: State, events: seq<Event>)
    requires Legal(c, s, events)
    decreases |events|
  {
    events != [] ==> HarmlessEvent(c, s, events[0]) && AllHarmless(c, Apply(c, s, events[0]), events[1..])
  }

  const EMPTY := State(map[], {}, map[], map[])

  // ------------------------------------------------------------------ invariants

  ghost predicate IsAt(s: State, p: Path, f: File) {
    p in s.nodes && s.nodes[p] == Data(f)
  }

  ghost predicate Located(s: State, f: File) {
    exists p :: IsAt(s, p, f)
  }

  ghost predicate OnePlace(s: State) {
    && (forall p, q, f :: IsAt(s, p, f) && IsAt(s, q, f) ==> p == q)
    && (forall p, f :: IsAt(s, p, f) ==> f in s.known)
    && s.moved.Keys <= s.known
  }

  ghost predicate Accounted(s: State) {
    forall f :: f in s.known ==> Located(s, f) || f in s.evidence
  }

  /** Evidence is about the file itself: a success of its own request, or a positive check of the File ID
      and version in the document that came with its own reply. */
  predicate Good(c: Config, s: State, f: File) {
    f in s.evidence &&
    match s.evidence[f]
    case Stored(r) => IsSuccess(r) && c.immediateCleanUp
    case Checked(d, message) =>
      HasIds(d) && f in s.moved && s.moved[f] == d && Contains(message, "NGAMS_INFO_FILE_OK")
  }

  ghost predicate EvidenceGood(c: Config, s: State) {
    forall f :: f in s.evidence ==> f in s.known && Good(c, s, f)
  }

  /** Files renamed for removal have evidence already; files still waiting were never moved. */
  ghost predicate QueueGood(s: State) {
    forall p, f :: IsAt(s, p, f) && p.dir == Queue ==>
      f !in s.moved && (Visible(p.name) || f in s.evidence)
  }

  ghost predicate OwnDocs(s: State) {
    forall p, f :: IsAt(s, p, f) && p.dir == Archived && DocPath(p) in s.nodes ==>
      f in s.moved && s.nodes[DocPath(p)] == StatusDoc(s.moved[f])
  }

  ghost predicate Inv(c: Config, s: State) {
    OnePlace(s) && Accounted(s) && EvidenceGood(c, s) && QueueGood(s) && OwnDocs(s)
  }

  // --------------------------------------------------------------- preservation

  lemma ArriveKeeps(c: Config, s: State, name: string, f: File)
    requires Inv(c, s) && Enabled(c, s, Arrive(name, f))
    ensures Inv(c, Apply(c, s, Arrive(name, f)))
  {
    var t := Apply(c, s, Arrive(name, f));
    var p := Path(Queue, name);
    assert IsAt(t, p, f);
    assert forall q, g :: IsAt(t, q, g) <==> IsAt(s, q, g) || (q == p && g == f);
    forall g | g in t.known
      ensures Located(t, g) || g in t.evidence
    {
      if g != f && g !in s.evidence {
        var q :| IsAt(s, q, g);
        assert IsAt(t, q, g);
      }
    }
    assert forall g :: g in s.evidence ==> Good(c, t, g) by {
      assert forall g :: g in s.evidence ==> Good(c, s, g);
    }
  }

  lemma DocPathsDiffer(p: Path, q: Path)
    ensures DocPath(p) == DocPath(q) <==> p == q
    ensures DocPath(p) != p
  {
    if DocPath(p) == DocPath(q) {
      assert |p.name| == |q.name|;
      assert DocPath(p).name[..|p.name|] == p.name && DocPath(q).name[..|q.name|] == q.name;
    }
  }

  /** File f went from p to q; if saved, document d went beside it; nothing else changed. */
  ghost predicate MoveStep(s: State, t: State, p: Path, q: Path, f: File, d: Doc, saved: bool) {
    && t.known == s.known && t.evidence == s.evidence && t.moved == s.moved[f := d]
    && (forall r, g :: IsAt(t, r, g) <==>
          (r == q && g == f) || (r != p && r != q && !(saved && r == DocPath(q)) && IsAt(s, r, g)))
    && (forall r :: r != p && r != q && r != DocPath(q) ==>
          (r in t.nodes <==> r in s.nodes) && (r in s.nodes ==> t.nodes[r] == s.nodes[r]))
    && q in t.nodes
    && (DocPath(q) in t.nodes <==> saved || DocPath(q) in s.nodes)
    && (DocPath(q) in t.nodes ==> t.nodes[DocPath(q)] == if saved then StatusDoc(d) else s.nodes[DocPath(q)])
  }

  lemma MoveIsStep(c: Config, s: State, dir: Dir, base: string, a: Attempt, f: File)
    requires OnePlace(s) && IsAt(s, Path(Queue, base), f) && dir != Queue
    ensures var t, q := Moved(c, s, dir, base, a).0, Target(dir, a.isoTime, base);
            if Moves(c, q, a) then MoveStep(s, t, Path(Queue, base), q, f, a.reply.doc, a.saveOk) else t == s
  {
    var p, q := Path(Queue, base), Target(dir, a.isoTime, base);
    DocPathsDiffer(q, q);
    hide Fits;
  }

  lemma MoveKeepsPlaces(s: State, t: State, p: Path, q: Path, f: File, d: Doc, saved: bool)
    requires OnePlace(s) && Accounted(s) && IsAt(s, p, f) && MoveStep(s, t, p, q, f, d, saved) && q != p
    requires Expendable(s, q) && (saved ==> Expendable(s, DocPath(q)))
    ensures OnePlace(t) && Accounted(t)
  {
    forall r, u, g | IsAt(t, r, g) && IsAt(t, u, g)
      ensures r == u
    {
      assert IsAt(s, if r == q then p else r, g);
      assert IsAt(s, if u == q then p else u, g);
    }
    forall g | g in t.known && g !in t.evidence
      ensures Located(t, g)
    {
      assert Located(s, g);
      var r :| IsAt(s, r, g);
      assert IsAt(t, if r == p then q else r, g);
    }
  }

  lemma MoveKeepsEvidence(c: Config, s: State, t: State, p: Path, q: Path, f: File, d: Doc, saved: bool)
    requires OnePlace(s) && EvidenceGood(c, s) && QueueGood(s) && IsAt(s, p, f) && p.dir == Queue
    requires MoveStep(s, t, p, q, f, d, saved) && q.dir != Queue
    ensures EvidenceGood(c, t) && QueueGood(t)
  {
    forall g | g in t.evidence
      ensures g in t.known && Good(c, t, g)
    {
      assert Good(c, s, g);
    }
    forall r, g | IsAt(t, r, g) && r.dir == Queue
      ensures g !in t.moved && (Visible(r.name) || g in t.evidence)
    {
      assert IsAt(s, r, g);
    }
    hide IsAt;
  }

  /** A move keeps every document beside its own file exactly when the names it writes permit it. */
  lemma MoveKeepsDocsIff(s: State, t: State, p: Path, q: Path, f: File, d: Doc, saved: bool)
    requires OnePlace(s) && OwnDocs(s) && IsAt(s, p, f) && p.dir == Queue && q.dir != Queue
    requires MoveStep(s, t, p, q, f, d, saved)
    ensures OwnDocs(t) <==> DocsStay(s, q, d, saved)
  {
    DocPathsDiffer(q, q);
    assert IsAt(t, q, f);
    if DocsStay(s, q, d, saved) {
      forall r, g | IsAt(t, r, g) && r.dir == Archived && DocPath(r) in t.nodes
        ensures g in t.moved && t.nodes[DocPath(r)] == StatusDoc(t.moved[g])
      {
        DocPathsDiffer(r, q);
        if r != q {
          assert IsAt(s, r, g) && DocPath(r) != q && DocPath(r) in s.nodes;
        }
      }
    }
    if OwnDocs(t) && q.dir == Archived {
      forall r | HasFile(s, r)
        ensures DocPath(r) != q
      {
        DocPathsDiffer(r, q);
        DocIsLonger(r, q);
        assert IsAt(s, r, s.nodes[r].f);
        if DocPath(r) == q { assert IsAt(t, r, s.nodes[r].f); }
      }
    }
  }

  lemma DocIsLonger(p: Path, q: Path)
    ensures DocPath(p) == q ==> p != q && p != DocPath(q)
  {
    assert |DocPath(p).name| > |p.name| && |DocPath(q).name| > |q.name|;
  }

  lemma OverwritingLoses(s: State, t: State, p: Path, q: Path, f: File, d: Doc, saved: bool, r: Path)
    requires OnePlace(s) && IsAt(s, p, f) && MoveStep(s, t, p, q, f, d, saved) && Accounted(t)
    requires r != p && (r == q || (saved && r == DocPath(q)))
    ensures Expendable(s, r)
  {
    if HasFile(s, r) {
      var g := s.nodes[r].f;
      assert IsAt(s, r, g) && g != f && g in t.known;
      assert forall u :: !IsAt(t, u, g);
    }
  }

  /** A move, at whichever operation it breaks off, keeps all files accounted for and every document with
      its own file, exactly when it writes nothing or its writes are harmless. */
  lemma MoveKeepsIff(c: Config, s: State, dir: Dir, base: string, a: Attempt)
    requires Inv(c, s) && HasFile(s, Path(Queue, base)) && dir != Queue
    ensures Inv(c, Moved(c, s, dir, base, a).0)
       <==> (Moves(c, Target(dir, a.isoTime, base), a) ==> Harmless(s, Target(dir, a.isoTime, base), a))
  {
    var p, q := Path(Queue, base), Target(dir, a.isoTime, base);
    var f, d := s.nodes[p].f, a.reply.doc;
    var t := Moved(c, s, dir, base, a).0;
    assert IsAt(s, p, f);
    hide IsAt, OnePlace, Accounted, EvidenceGood, QueueGood, OwnDocs, MoveStep, Moved, Moves, DocsStay, Expendable;
    MoveIsStep(c, s, dir, base, a, f);
    if Moves(c, q, a) {
      MoveKeepsEvidence(c, s, t, p, q, f, d, a.saveOk);
      MoveKeepsDocsIff(s, t, p, q, f, d, a.saveOk);
      if Harmless(s, q, a) {
        MoveKeepsPlaces(s, t, p, q, f, d, a.saveOk);
      }
      if Inv(c, t) {
        OverwritingLoses(s, t, p, q, f, d, a.saveOk, q);
        if a.saveOk { OverwritingLoses(s, t, p, q, f, d, a.saveOk, DocPath(q)); }
      }
    }
  }

  /** Files with evidence may disappear or be renamed within the queue directory; the rest stays. */
  ghost predicate RemovalStep(s: State, t: State, f: File, e: Evidence) {
    && t.known == s.known && t.moved == s.moved && t.evidence == s.evidence[f := e]
    && (forall p, g :: IsAt(t, p, g) && g != f ==> IsAt(s, p, g))
    && (forall p, g :: IsAt(s, p, g) && g !in t.evidence ==> IsAt(t, p, g))
    && (forall p, q :: IsAt(t, p, f) && IsAt(t, q, f) ==> p == q)
    && (forall p :: p in t.nodes && p.dir == Archived ==> p in s.nodes && t.nodes[p] == s.nodes[p])
  }

  lemma RemovalKeeps(c: Config, s: State, t: State, f: File, e: Evidence)
    requires Inv(c, s) && f in s.known && RemovalStep(s, t, f, e) && Good(c, t, f)
    requires forall p :: IsAt(t, p, f) && p.dir == Queue ==> f !in s.moved
    ensures Inv(c, t)
  {
    forall p, q, g | IsAt(t, p, g) && IsAt(t, q, g)
      ensures p == q && g in t.known
    {
      if g != f { assert IsAt(s, p, g) && IsAt(s, q, g); }
    }
    forall g | g in t.known && g !in t.evidence
      ensures Located(t, g)
    {
      assert Located(s, g);
      var p :| IsAt(s, p, g);
      assert IsAt(t, p, g);
    }
    forall g | g in t.evidence
      ensures g in t.known && Good(c, t, g)
    {
      if g != f { assert Good(c, s, g); }
    }
    forall p, g | IsAt(t, p, g) && p.dir == Archived && DocPath(p) in t.nodes
      ensures g in t.moved && t.nodes[DocPath(p)] == StatusDoc(t.moved[g])
    {
      assert p in s.nodes && IsAt(s, p, g);
    }
    forall p, g | IsAt(t, p, g) && p.dir == Queue
      ensures g !in t.moved && (Visible(p.name) || g in t.evidence)
    {
      if g != f { assert IsAt(s, p, g); }
    }
  }

  lemma RemoveKeeps(c: Config, s: State, base: string, a: Attempt)
    requires Inv(c, s) && HasFile(s, Path(Queue, base)) && IsSuccess(a.reply) && c.immediateCleanUp
    ensures Inv(c, Removed(s, base, a))
  {
    var p, h := Path(Queue, base), HiddenPath(base);
    var f := s.nodes[p].f;
    var t := Removed(s, base, a);
    assert IsAt(s, p, f);
    assert !Visible(h.name);
    assert forall g :: IsAt(s, h, g) ==> g in s.evidence;
    RemovedIsStep(s, base, a);
    assert Good(c, t, f);
    hide Removed, RemovalStep;
    RemovalKeeps(c, s, t, f, Stored(a.reply));
  }

  lemma RemovedIsStep(s: State, base: string, a: Attempt)
    requires OnePlace(s) && HasFile(s, Path(Queue, base))
    requires forall g :: IsAt(s, HiddenPath(base), g) ==> g in s.evidence
    ensures RemovalStep(s, Removed(s, base, a), s.nodes[Path(Queue, base)].f, Stored(a.reply))
  {
    var p, h, t := Path(Queue, base), HiddenPath(base), Removed(s, base, a);
    var f := s.nodes[p].f;
    assert IsAt(s, p, f);
    assert forall q, g :: IsAt(t, q, g) ==> IsAt(s, q, g) || (q == h && g == f && p !in t.nodes);
    forall q, g | IsAt(s, q, g) && g !in t.evidence
      ensures IsAt(t, q, g)
    {
      assert q != p && q != h;
    }
  }

  /** The clean-up changes nothing but for a file of elapsed time whose own document names a File ID and
      version that the archive, asked for them, says it has. */
  lemma CleanedIsStep(c: Config, s: State, name: string, o: Check)
    requires OnePlace(s) && OwnDocs(s) && HasFile(s, Path(Archived, name)) && Cleaned(c, s, name, o).0 != s
    ensures LoadedDoc(c, s, name, o).Some? && HasIds(LoadedDoc(c, s, name, o).value)
    ensures o.elapsed && o.sendOk && Contains(o.message, "NGAMS_INFO_FILE_OK")
    ensures var f := s.nodes[Path(Archived, name)].f;
            var d := LoadedDoc(c, s, name, o).value;
            && f in s.moved && s.moved[f] == d
            && RemovalStep(s, Cleaned(c, s, name, o).0, f, Checked(d, o.message))
  {
    var p, t := Path(Archived, name), Cleaned(c, s, name, o).0;
    var f, d := s.nodes[p].f, LoadedDoc(c, s, name, o).value;
    assert IsAt(s, p, f);
    assert t.evidence == s.evidence[f := Checked(d, o.message)];
    hide Contains, Fits, IsHandled;
    assert forall q, g :: IsAt(t, q, g) ==> IsAt(s, q, g);
    forall q, g | IsAt(s, q, g) && g !in t.evidence
      ensures IsAt(t, q, g)
    {
      assert q != p && q != DocPath(p);
    }
  }

  /** A clean-up that takes away no file leaves all as it was. */
  lemma DocsGone(c: Config, s: State, t: State)
    requires Inv(c, s) && t == s.(nodes := t.nodes)
    requires forall p, f :: IsAt(t, p, f) <==> IsAt(s, p, f)
    requires forall p :: p in t.nodes ==> p in s.nodes && t.nodes[p] == s.nodes[p]
    ensures Inv(c, t)
  {
    forall f | f in t.known && f !in t.evidence
      ensures Located(t, f)
    {
      assert Located(s, f);
      var p :| IsAt(s, p, f);
      assert IsAt(t, p, f);
    }
    assert forall f :: f in s.evidence ==> Good(c, s, f) ==> Good(c, t, f);
  }

  lemma CleanKeeps(c: Config, s: State, name: string, o: Check)
    requires Inv(c, s) && Path(Archived, name) in s.nodes
    ensures Inv(c, Cleaned(c, s, name, o).0)
  {
    var p := Path(Archived, name);
    var t := Cleaned(c, s, name, o).0;
    if t != s {
      if s.nodes[p].Data? {
        CleanedIsStep(c, s, name, o);
        var f := s.nodes[p].f;
        assert IsAt(s, p, f);
        assert forall q :: IsAt(t, q, f) ==> IsAt(s, q, f);
        hide Cleaned, LoadedDoc, Contains;
        RemovalKeeps(c, s, t, f, Checked(s.moved[f], o.message));
      } else {
        hide Inv;
        DocsGone(c, s, t);
      }
    }
  }

  lemma TryKeepsIff(c: Config, s: State, base: string, a: Attempt)
    requires Inv(c, s) && Enabled(c, s, Try(base, a))
    ensures Inv(c, Apply(c, s, Try(base, a))) <==> HarmlessEvent(c, s, Try(base, a))
  {
    hide Inv, Moved, Removed, Moves, Harmless, Fits, IsBad, IsBuffered;
    if a.checksumOk {
      if MoveTarget(c, base, a).Some? {
        var dir := if !IsSuccess(a.reply) && IsBad(a.reply) then Bad else Archived;
        MoveKeepsIff(c, s, dir, base, a);
      } else if IsSuccess(a.reply) {
        RemoveKeeps(c, s, base, a);
      }
    }
  }

  /** Every step keeps the invariant, but for the moves that are not harmless, which break it. */
  lemma StepKeepsIff(c: Config, s: State, e: Event)
    requires Inv(c, s) && Enabled(c, s, e)
    ensures Inv(c, Apply(c, s, e)) <==> HarmlessEvent(c, s, e)
  {
    match e {
      case Arrive(name, f) => ArriveKeeps(c, s, name, f);
      case Try(base, a) => TryKeepsIff(c, s, base, a);
      case Clean(name, o) =>
        hide Inv, Cleaned;
        CleanKeeps(c, s, name, o);
    }
  }

  /** The invariant holds in every state of the run. */
  ghost predicate AlwaysInv(c: Config, s: State, events: seq<Event>)
    requires Legal(c, s, events)
    decreases |events|
  {
    Inv(c, s) && (events != [] ==> AlwaysInv(c, Apply(c, s, events[0]), events[1..]))
  }

  /** A run keeps the invariant throughout exactly when all its moves are harmless. */
  lemma {:induction false} RunKeepsIff(c: Config, s: State, events: seq<Event>)
    requires Inv(c, s) && Legal(c, s, events)
    ensures AlwaysInv(c, s, events) <==> AllHarmless(c, s, events)
    ensures AllHarmless(c, s, events) ==> Inv(c, Exec(c, s, events))
    decreases |events|
  {
    if events != [] {
      hide Inv, Enabled, Apply, HarmlessEvent;
      var t := Apply(c, s, events[0]);
      StepKeepsIff(c, s, events[0]);
      if Inv(c, t) {
        RunKeepsIff(c, t, events[1..]);
      } else {
        assert !AlwaysInv(c, t, events[1..]);
      }
    }
  }

  // ---------------------------------------------------------------- main lemmas

  /** Over any run from empty directories with harmless moves a file is in exactly one place, or it is gone;
      and it is gone only with evidence of its own that the archive has it. */
  lemma NoFileIsLost(c: Config, events: seq<Event>, f: File)
    requires Legal(c, EMPTY, events) && AllHarmless(c, EMPTY, events) && f in Exec(c, EMPTY, events).known
    ensures var s := Exec(c, EMPTY, events);
            && (forall p, q :: IsAt(s, p, f) && IsAt(s, q, f) ==> p == q)
            && (Located(s, f) || Good(c, s, f))
            && (f in s.evidence ==> Good(c, s, f))
            && (forall p :: IsAt(s, p, f) && !Visible(p.name) && p.dir == Queue ==> f in s.evidence)
  {
    RunKeepsIff(c, EMPTY, events);
    hide Exec, Legal, AllHarmless, IsAt, Good, Visible;
  }

  // ------------------------------------------------- what must have happened to a file

  /** The event hands file f to the archive and learns that it is stored, copies to be cleaned up at once. */
  predicate Archives(c: Config, s: State, e: Event, f: File) {
    && e.Try? && HasFile(s, Path(Queue, e.base)) && s.nodes[Path(Queue, e.base)].f == f
    && c.immediateCleanUp && e.a.checksumOk && IsSuccess(e.a.reply)
  }

  /** The event asks the archive for the File ID and version in document d, and learns that it has them. */
  predicate Confirms(c: Config, s: State, e: Event, f: File, d: Doc) {
    && e.Clean? && HasFile(s, Path(Archived, e.name)) && s.nodes[Path(Archived, e.name)].f == f
    && LoadedDoc(c, s, e.name, e.o) == Some(d) && HasIds(d)
    && e.o.elapsed && e.o.sendOk && Contains(e.o.message, "NGAMS_INFO_FILE_OK")
  }

  /** The event moves file f out of the queue on a reply with document d. */
  predicate Brings(c: Config, s: State, e: Event, f: File, d: Doc) {
    && e.Try? && HasFile(s, Path(Queue, e.base)) && s.nodes[Path(Queue, e.base)].f == f
    && MoveTarget(c, e.base, e.a).Some? && e.a.reply.doc == d
  }

  /** Somewhere in the run file f was moved on a reply with document d. */
  predicate Brought(c: Config, s: State, events: seq<Event>, f: File, d: Doc)
    requires Legal(c, s, events)
    decreases |events|
  {
    events != [] && (Brings(c, s, events[0], f, d) || Brought(c, Apply(c, s, events[0]), events[1..], f, d))
  }

  /** Somewhere in the run file f was archived by its own request or, if it came with a document, that
      document was confirmed. */
  predicate Secured(c: Config, s: State, events: seq<Event>, f: File, doc: Option<Doc>)
    requires Legal(c, s, events)
    decreases |events|
  {
    events != [] && (
      || Archives(c, s, events[0], f)
      || (doc.Some? && Confirms(c, s, events[0], f, doc.value))
      || Secured(c, Apply(c, s, events[0]), events[1..], f, doc))
  }

  /** The document file f came with, if it has come with one so far. */
  predicate IsDocOf(s: State, f: File, doc: Option<Doc>) {
    f in s.moved ==> doc == Some(s.moved[f])
  }

  lemma StepSecures(c: Config, s: State, e: Event, f: File, doc: Option<Doc>)
    requires Inv(c, s) && Enabled(c, s, e) && f !in s.evidence && f in Apply(c, s, e).evidence
    requires IsDocOf(s, f, doc)
    ensures Archives(c, s, e, f) || (doc.Some? && Confirms(c, s, e, f, doc.value))
  {
    match e {
      case Arrive(_, _) =>
      case Try(base, a) =>
        hide Inv, Moves, Fits, IsBad, IsBuffered, IsSuccess;
      case Clean(name, o) =>
        if HasFile(s, Path(Archived, name)) {
          CleanedIsStep(c, s, name, o);
        }
        hide Inv, Contains, LoadedDoc;
    }
  }

  /** What an event does to the documents files came with: a move adds that of its file. */
  lemma MovedAfter(c: Config, s: State, e: Event)
    requires Enabled(c, s, e)
    ensures var t := Apply(c, s, e);
            t.moved == s.moved || (e.Try? && HasFile(s, Path(Queue, e.base)) && MoveTarget(c, e.base, e.a).Some?
              && t.moved == s.moved[s.nodes[Path(Queue, e.base)].f := e.a.reply.doc])
  {
    hide Contains, Fits, IsSuccess, IsBad, IsBuffered, IsHandled, LoadedDoc;
  }

  lemma WaitingIsUnmoved(s: State, base: string)
    requires QueueGood(s) && HasFile(s, Path(Queue, base))
    ensures s.nodes[Path(Queue, base)].f !in s.moved
  {
    assert IsAt(s, Path(Queue, base), s.nodes[Path(Queue, base)].f);
  }

  lemma StepMoves(c: Config, s: State, e: Event, f: File)
    requires Inv(c, s) && Enabled(c, s, e)
    ensures f in s.moved ==> f in Apply(c, s, e).moved && Apply(c, s, e).moved[f] == s.moved[f]
    ensures f !in s.moved && f in Apply(c, s, e).moved ==> Brings(c, s, e, f, Apply(c, s, e).moved[f])
  {
    MovedAfter(c, s, e);
    if e.Try? { WaitingIsUnmoved(s, e.base); }
    hide Inv, Apply, MoveTarget;
  }

  lemma {:induction false} RunKeepsMoved(c: Config, s: State, events: seq<Event>, f: File)
    requires Inv(c, s) && Legal(c, s, events) && AllHarmless(c, s, events) && f in s.moved
    ensures f in Exec(c, s, events).moved && Exec(c, s, events).moved[f] == s.moved[f]
    decreases |events|
  {
    if events != [] {
      hide Inv, Enabled, Apply, HarmlessEvent;
      StepKeepsIff(c, s, events[0]);
      StepMoves(c, s, events[0], f);
      RunKeepsMoved(c, Apply(c, s, events[0]), events[1..], f);
    }
  }

  lemma {:induction false} EvidenceIsSecured(c: Config, s: State, events: seq<Event>, f: File, doc: Option<Doc>)
    requires Inv(c, s) && Legal(c, s, events) && AllHarmless(c, s, events)
    requires f !in s.evidence && f in Exec(c, s, events).evidence && IsDocOf(Exec(c, s, events), f, doc)
    ensures Secured(c, s, events, f, doc)
    decreases |events|
  {
    if events != [] {
      var t := Apply(c, s, events[0]);
      if f in s.moved { RunKeepsMoved(c, s, events, f); }
      hide Inv, Enabled, Apply, HarmlessEvent, Archives, Confirms;
      StepKeepsIff(c, s, events[0]);
      if f in t.evidence {
        StepSecures(c, s, events[0], f, doc);
      } else {
        EvidenceIsSecured(c, t, events[1..], f, doc);
      }
    }
  }

  lemma {:induction false} MovedIsBrought(c: Config, s: State, events: seq<Event>, f: File)
    requires Inv(c, s) && Legal(c, s, events) && AllHarmless(c, s, events)
    requires f !in s.moved && f in Exec(c, s, events).moved
    ensures Brought(c, s, events, f, Exec(c, s, events).moved[f])
    decreases |events|
  {
    if events != [] {
      var t := Apply(c, s, events[0]);
      hide Inv, Enabled, Apply, HarmlessEvent, Brings;
      StepKeepsIff(c, s, events[0]);
      StepMoves(c, s, events[0], f);
      if f in t.moved {
        RunKeepsMoved(c, t, events[1..], f);
      } else {
        MovedIsBrought(c, t, events[1..], f);
      }
    }
  }

  /** A file that is gone after a run with harmless moves was archived by its own request while copies were
      to be cleaned up at once; or it was moved on a reply of its own, and the archive, asked for the File ID
      and version in the document of that reply, said that it has them. */
  lemma GoneIsSecured(c: Config, events: seq<Event>, f: File)
    requires Legal(c, EMPTY, events) && AllHarmless(c, EMPTY, events)
    requires f in Exec(c, EMPTY, events).known && !Located(Exec(c, EMPTY, events), f)
    ensures exists doc: Option<Doc> ::
              && Secured(c, EMPTY, events, f, doc)
              && (doc.Some? ==> Brought(c, EMPTY, events, f, doc.value))
  {
    NoFileIsLost(c, events, f);
    RunKeepsIff(c, EMPTY, []);
    var s := Exec(c, EMPTY, events);
    assert f in s.evidence && Inv(c, EMPTY);
    var doc := if f in s.moved then Some(s.moved[f]) else None;
    assert IsDocOf(s, f, doc);
    hide *;
    EvidenceIsSecured(c, EMPTY, events, f, doc);
    if f in s.moved {
      MovedIsBrought(c, EMPTY, events, f);
    }
  }

  /** Without them it can be lost: two files of one name, archived with one time stamp. */
  lemma OverwriteLosesAFile(c: Config, base: string, a: Attempt)
    requires !c.immediateCleanUp && Visible(base) && a.checksumOk && IsSuccess(a.reply) && a.saveOk
    requires Moves(c, Target(Archived, a.isoTime, base), a)
    ensures var events := [Arrive(base, 0), Try(base, a), Arrive(base, 1), Try(base, a)];
            && Legal(c, EMPTY, events)
            && var s := Exec(c, EMPTY, events);
               0 in s.known && !Located(s, 0) && 0 !in s.evidence
  {
    var p, q, d := Path(Queue, base), Target(Archived, a.isoTime, base), StatusDoc(a.reply.doc);
    hide Contains, Fits, IsSuccess;
    var s1 := EMPTY.(nodes := map[p := Data(0)], known := {0});
    var s2 := State(map[q := Data(0), DocPath(q) := d], {0}, map[], map[0 := a.reply.doc]);
    var s3 := State(map[q := Data(0), DocPath(q) := d, p := Data(1)], {0, 1}, map[], map[0 := a.reply.doc]);
    var s4 := State(map[q := Data(1), DocPath(q) := d], {0, 1}, map[], map[0 := a.reply.doc, 1 := a.reply.doc]);
    DocPathsDiffer(q, q);
    assert Apply(c, EMPTY, Arrive(base, 0)) == s1;
    assert Apply(c, s1, Try(base, a)) == s2;
    assert Apply(c, s2, Arrive(base, 1)) == s3;
    assert Apply(c, s3, Try(base, a)) == s4;
    assert Legal(c, s4, []) && Exec(c, s4, []) == s4;
    hide Apply, DocPath, Legal, Exec, Target;
    RunOn(c, s3, Try(base, a), []);
    RunOn(c, s2, Arrive(base, 1), [Try(base, a)]);
    RunOn(c, s1, Try(base, a), [Arrive(base, 1), Try(base, a)]);
    RunOn(c, EMPTY, Arrive(base, 0), [Try(base, a), Arrive(base, 1), Try(base, a)]);
    assert [Try(base, a)] + [] == [Try(base, a)];
    assert [Arrive(base, 1)] + [Try(base, a)] == [Arrive(base, 1), Try(base, a)];
    assert [Try(base, a)] + [Arrive(base, 1), Try(base, a)] == [Try(base, a), Arrive(base, 1), Try(base, a)];
    assert [Arrive(base, 0)] + [Try(base, a), Arrive(base, 1), Try(base, a)]
        == [Arrive(base, 0), Try(base, a), Arrive(base, 1), Try(base, a)];
  }

  lemma RunOn(c: Config, s: State, e: Event, es: seq<Event>)
    requires Enabled(c, s, e)
    ensures Legal(c, s, [e] + es) <==> Legal(c, Apply(c, s, e), es)
    ensures Legal(c, Apply(c, s, e), es) ==> Exec(c, s, [e] + es) == Exec(c, Apply(c, s, e), es)
  {
    assert ([e] + es)[1..] == es;
    hide Apply;
  }

  /** And a document that is not its own lets a file be removed on another file's name and version. */
  lemma ForeignDocRemoves(c: Config, s: State, name: string, f: File, d: Doc)
    requires IsAt(s, Path(Archived, name), f) && IsHandled(name)
    requires Fits(c, Path(Archived, name)) && Fits(c, DocPath(Path(Archived, name)))
    requires DocPath(Path(Archived, name)) in s.nodes && s.nodes[DocPath(Path(Archived, name))] == StatusDoc(d)
    requires HasIds(d) && OnePlace(s) && s.moved.Keys >= {f} && s.moved[f] != d
    ensures var t := Cleaned(c, s, name, Check(true, true, true, "NGAMS_INFO_FILE_OK", true, true)).0;
            !Located(t, f) && !Good(c, t, f)
  {
    hide IsHandled, Fits;
    var p, o := Path(Archived, name), Check(true, true, true, "NGAMS_INFO_FILE_OK", true, true);
    var t := Cleaned(c, s, name, o).0;
    assert Contains(o.message, "NGAMS_INFO_FILE_OK");
    assert t.evidence[f] == Checked(d, o.message);
    assert forall q :: IsAt(t, q, f) ==> IsAt(s, q, f) && q != p;
  }

  /** A positive check; removeDocOk says whether the document goes as well. */
  function Positive(removeDocOk: bool): Check {
    Check(true, true, true, "NGAMS_INFO_FILE_OK", true, removeDocOk)
  }

  /** The attempt of the second file: another document, which cannot be saved. */
  function Unsaved(a: Attempt, doc: Doc): Attempt {
    a.(reply := a.reply.(doc := doc), saveOk := false)
  }

  /** What lets a file b be archived, and its target cleaned up. */
  predicate Archivable(c: Config, base: string, a: Attempt) {
    && !c.immediateCleanUp && Visible(base) && a.checksumOk && IsSuccess(a.reply)
    && Moves(c, Target(Archived, a.isoTime, base), a) && IsHandled(Target(Archived, a.isoTime, base).name)
    && HasIds(a.reply.doc)
  }

  /** The first file archived and cleaned up, its document left behind. */
  function Left(base: string, a: Attempt): State {
    State(map[DocPath(Target(Archived, a.isoTime, base)) := StatusDoc(a.reply.doc)], {0},
          map[0 := Checked(a.reply.doc, Positive(false).message)], map[0 := a.reply.doc])
  }

  /** The second file beside it. */
  function Misplaced(base: string, a: Attempt, doc: Doc): State {
    var q := Target(Archived, a.isoTime, base);
    Left(base, a).(nodes := map[DocPath(q) := StatusDoc(a.reply.doc), q := Data(1)], known := {0, 1},
                   moved := map[0 := a.reply.doc, 1 := doc])
  }

  lemma FirstIsLeft(c: Config, base: string, a: Attempt, es: seq<Event>)
    requires Archivable(c, base, a) && a.saveOk
    ensures var first := [Arrive(base, 0), Try(base, a), Clean(Target(Archived, a.isoTime, base).name, Positive(false))];
            Legal(c, Left(base, a), es) ==>
              && Legal(c, EMPTY, first + es)
              && Exec(c, EMPTY, first + es) == Exec(c, Left(base, a), es)
  {
    var p, q, d := Path(Queue, base), Target(Archived, a.isoTime, base), StatusDoc(a.reply.doc);
    var clean := Clean(q.name, Positive(false));
    assert Contains(Positive(false).message, "NGAMS_INFO_FILE_OK");
    hide Contains, Fits, IsSuccess, IsHandled;
    DocPathsDiffer(q, q);
    var s1 := EMPTY.(nodes := map[p := Data(0)], known := {0});
    var s2 := State(map[q := Data(0), DocPath(q) := d], {0}, map[], map[0 := a.reply.doc]);
    assert Apply(c, EMPTY, Arrive(base, 0)) == s1;
    assert Apply(c, s1, Try(base, a)) == s2;
    assert Apply(c, s2, clean) == Left(base, a);
    hide Apply, DocPath, Legal, Exec, Target, Left;
    RunOn(c, s2, clean, es);
    RunOn(c, s1, Try(base, a), [clean] + es);
    RunOn(c, EMPTY, Arrive(base, 0), [Try(base, a)] + ([clean] + es));
    assert [Arrive(base, 0)] + ([Try(base, a)] + ([clean] + es)) == [Arrive(base, 0), Try(base, a), clean] + es;
  }

  lemma SecondIsMisplaced(c: Config, base: string, a: Attempt, doc: Doc, es: seq<Event>)
    requires Archivable(c, base, a)
    ensures var next := [Arrive(base, 1), Try(base, Unsaved(a, doc))];
            Legal(c, Misplaced(base, a, doc), es) ==>
              && Legal(c, Left(base, a), next + es)
              && Exec(c, Left(base, a), next + es) == Exec(c, Misplaced(base, a, doc), es)
  {
    var p, q, d := Path(Queue, base), Target(Archived, a.isoTime, base), StatusDoc(a.reply.doc);
    hide Contains, Fits, IsSuccess, IsHandled;
    DocPathsDiffer(q, q);
    var s4 := Left(base, a).(nodes := map[DocPath(q) := d, p := Data(1)], known := {0, 1});
    assert Apply(c, Left(base, a), Arrive(base, 1)) == s4;
    assert IsSuccess(Unsaved(a, doc).reply) == IsSuccess(a.reply) by { SameSuccess(a.reply, doc); }
    assert Apply(c, s4, Try(base, Unsaved(a, doc))) == Misplaced(base, a, doc);
    hide Apply, DocPath, Legal, Exec, Target, Left, Misplaced, Unsaved;
    RunOn(c, s4, Try(base, Unsaved(a, doc)), es);
    RunOn(c, Left(base, a), Arrive(base, 1), [Try(base, Unsaved(a, doc))] + es);
    assert [Arrive(base, 1)] + ([Try(base, Unsaved(a, doc))] + es) == [Arrive(base, 1), Try(base, Unsaved(a, doc))] + es;
  }

  lemma SameSuccess(r: Reply, doc: Doc)
    ensures IsSuccess(r.(doc := doc)) == IsSuccess(r)
  {
  }

  lemma MisplacedIsRemoved(c: Config, base: string, a: Attempt, doc: Doc)
    requires Archivable(c, base, a) && doc != a.reply.doc
    ensures var s := Misplaced(base, a, doc);
            var e := Clean(Target(Archived, a.isoTime, base).name, Positive(true));
            && Legal(c, s, [e])
            && var t := Exec(c, s, [e]);
               1 in t.known && !Located(t, 1) && !Good(c, t, 1)
  {
    var s, q := Misplaced(base, a, doc), Target(Archived, a.isoTime, base);
    var e := Clean(q.name, Positive(true));
    hide Contains, Fits, IsSuccess, IsHandled;
    DocPathsDiffer(q, q);
    assert IsAt(s, q, 1) && OnePlace(s);
    ForeignDocRemoves(c, s, q.name, 1, a.reply.doc);
    var t := Apply(c, s, e);
    assert t.known == s.known;
    assert Legal(c, t, []) && Exec(c, t, []) == t;
    hide Apply, Good, Located;
    RunOn(c, s, e, []);
    assert [e] + [] == [e];
  }

  /** A run that comes to this: the first file is cleaned up but its document is not, and the second, of the
      same name and time stamp, is moved without a document of its own. */
  lemma ForeignDocIsMet(c: Config, base: string, a: Attempt, doc: Doc)
    requires Archivable(c, base, a) && a.saveOk && doc != a.reply.doc
    ensures var name := Target(Archived, a.isoTime, base).name;
            var events := [Arrive(base, 0), Try(base, a), Clean(name, Positive(false)),
                           Arrive(base, 1), Try(base, Unsaved(a, doc)), Clean(name, Positive(true))];
            && Legal(c, EMPTY, events)
            && var s := Exec(c, EMPTY, events);
               1 in s.known && !Located(s, 1) && !Good(c, s, 1)
  {
    var name := Target(Archived, a.isoTime, base).name;
    var last := [Clean(name, Positive(true))];
    var next := [Arrive(base, 1), Try(base, Unsaved(a, doc))];
    hide *;
    MisplacedIsRemoved(c, base, a, doc);
    SecondIsMisplaced(c, base, a, doc, last);
    FirstIsLeft(c, base, a, next + last);
    assert [Arrive(base, 0), Try(base, a), Clean(name, Positive(false))] + (next + last)
        == [Arrive(base, 0), Try(base, a), Clean(name, Positive(false)),
            Arrive(base, 1), Try(base, Unsaved(a, doc)), Clean(name, Positive(true))];
  }

  /** A move keeps every file exactly when it overwrites none, with the file or with its document. */
  lemma MoveKeepsFilesIff(c: Config, s: State, dir: Dir, base: string, a: Attempt)
    requires OnePlace(s) && HasFile(s, Path(Queue, base)) && dir != Queue
    requires Moved(c, s, dir, base, a).1
    ensures (forall f :: Located(s, f) ==> Located(Moved(c, s, dir, base, a).0, f))
       <==> !HasFile(s, Target(dir, a.isoTime, base)) && !HasFile(s, DocPath(Target(dir, a.isoTime, base)))
  {
    var p, q := Path(Queue, base), Target(dir, a.isoTime, base);
    var t := Moved(c, s, dir, base, a).0;
    var f := s.nodes[p].f;
    DocPathsDiffer(q, q);
    assert IsAt(s, p, f) && IsAt(t, q, f);
    assert forall r, g :: IsAt(t, r, g) <==> (r == q && g == f) || (r != p && r != q && r != DocPath(q) && IsAt(s, r, g));
    hide Moved, Fits;
    if HasFile(s, q) {
      var g := s.nodes[q].f;
      assert IsAt(s, q, g) && g != f;
      assert Located(s, g) && !Located(t, g);
    }
    if HasFile(s, DocPath(q)) {
      var g := s.nodes[DocPath(q)].f;
      assert IsAt(s, DocPath(q), g) && g != f;
      assert Located(s, g) && !Located(t, g);
    }
    forall g | Located(s, g) && !HasFile(s, q) && !HasFile(s, DocPath(q))
      ensures Located(t, g)
    {
      var r :| IsAt(s, r, g);
      assert IsAt(t, if r == p then q else r, g);
    }
  }

  /** The queue entry stays in the processing DBM, so that this client does not try the file again,
      exactly when the attempt breaks off early; a file whose entry is released is still waiting
      exactly when the reply was another error, or its removal could not rename it. */
  lemma ReleasedIff(c: Config, s: State, base: string, a: Attempt)
    requires OnePlace(s) && HasFile(s, Path(Queue, base))
    ensures var (t, released) := Attempted(c, s, base, a);
            var q := MoveTarget(c, base, a);
            && (released <==>
                 && a.checksumOk
                 && (q.Some? ==> a.renameOk && a.saveOk && Fits(c, DocPath(q.value)))
                 && (IsSuccess(a.reply) && c.immediateCleanUp ==> Fits(c, HiddenPath(base))))
            && (released ==> (HasFile(t, Path(Queue, base)) <==> q.None? && (!IsSuccess(a.reply) || !a.renameOk)))
  {
    hide Contains, IsSuccess, IsBad, IsBuffered;
    assert forall p :: |DocPath(p).name| > |p.name|;
    assert HiddenPath(base).name != base by {
      assert |HiddenPath(base).name| > |base|;
    }
  }

  // ------------------------------------------------------------- the client itself

  class ArchiveClient {
    const config: Config
    var nodes: map<Path, Node>
    var known: set<File>
    var evidence: map<File, Evidence>
    var moved: map<File, Doc>

    constructor (config: Config)
      ensures this.config == config && View() == EMPTY
    {
      this.config := config;
      nodes, known, evidence, moved := map[], {}, map[], map[];
    }

    function View(): State
      reads this
    {
      State(nodes, known, evidence, moved)
    }

    method MoveFile2StatDir(statDir: Dir, base: string, a: Attempt) returns (ok: bool)
      requires HasFile(View(), Path(Queue, base))
      modifies this
      ensures (View(), ok) == Moved(config, old(View()), statDir, base, a)
    {
      var source, target := Path(Queue, base), Target(statDir, a.isoTime, base);
      if !Fits(config, target) { return false; }
      var xmlStatDocFile := DocPath(target);
      if !Fits(config, xmlStatDocFile) { return false; }
      if !a.renameOk { return false; }
      moved := moved[nodes[source].f := a.reply.doc];
      nodes := (nodes - {source})[target := nodes[source]];
      if !a.saveOk { return false; }
      nodes := nodes[xmlStatDocFile := StatusDoc(a.reply.doc)];
      return true;
    }

    /** ngamsArchiveFile; released says whether deleteEntryFromQ was reached. */
    method ArchiveFile(base: string, a: Attempt) returns (released: bool)
      requires HasFile(View(), Path(Queue, base))
      modifies this
      ensures (View(), released) == Attempted(config, old(View()), base, a)
    {
      if !a.checksumOk { return false; }
      if a.reply.failed || a.reply.errorCode != 0 || Contains(a.reply.status, "FAILURE") {
        if Contains(a.reply.message, "NGAMS_ER_DAPI_BAD_FILE") ||
           Contains(a.reply.message, "NGAMS_ER_UNKNOWN_MIME_TYPE1") {
          var ok := MoveFile2StatDir(Bad, base, a);
          if !ok { return false; }
        } else if Contains(a.reply.message, "NGAMS_WA_BUF_DATA") {
          var ok := MoveFile2StatDir(Archived, base, a);
          if !ok { return false; }
        }
      } else if config.immediateCleanUp {
        var source, removeName := Path(Queue, base), HiddenPath(base);
        if !Fits(config, removeName) { return false; }
        evidence := evidence[nodes[source].f := Stored(a.reply)];
        if a.renameOk { nodes := (nodes - {source})[removeName := nodes[source]]; }
        if a.removeOk { nodes := nodes - {removeName}; }
      } else {
        var ok := MoveFile2StatDir(Archived, base, a);
        if !ok { return false; }
      }
      return true;
    }

    /** One pass over the names found in the Archived Files Directory. */
    method CleanUpArchivedFiles(names: seq<string>, checks: seq<Check>) returns (ok: bool)
      requires |names| == |checks|
      modifies this
      ensures (View(), ok) == CleanedAll(config, old(View()), names, checks)
    {
      var n := 0;
      assert names[0..] == names && checks[0..] == checks;
      while n < |names|
        invariant 0 <= n <= |names|
        invariant CleanedAll(config, View(), names[n..], checks[n..]) == CleanedAll(config, old(View()), names, checks)
      {
        assert names[n..][1..] == names[n + 1..] && checks[n..][1..] == checks[n + 1..];
        var name, o := names[n], checks[n];
        if Path(Archived, name) in nodes {
          var on := CleanUpEntry(name, o);
          if !on { return false; }
        }
        n := n + 1;
      }
      return true;
    }

    method CleanUpEntry(name: string, o: Check) returns (on: bool)
      requires Path(Archived, name) in nodes
      modifies this
      ensures (View(), on) == Cleaned(config, old(View()), name, o)
    {
      hide Contains;
      if !IsHandled(name) { return true; }
      var archFile := Path(Archived, name);
      if !Fits(config, archFile) { return false; }
      var xmlStatDocFile := DocPath(archFile);
      if !Fits(config, xmlStatDocFile) { return false; }
      if xmlStatDocFile !in nodes { return false; }
      if !o.elapsed { return true; }
      if !o.loadOk || nodes[xmlStatDocFile].Data? { return false; }
      var doc := nodes[xmlStatDocFile].d;
      if doc.fileId.None? { return false; }
      if doc.fileVersion.None? { return false; }
      if doc.fileId.value == "" || doc.fileVersion.value == "" {
        return doc.message.Some?;
      }
      if !o.sendOk { return true; }
      if Contains(o.message, "NGAMS_INFO_FILE_OK") {
        if nodes[archFile].Data? { evidence := evidence[nodes[archFile].f := Checked(doc, o.message)]; }
        if o.removeOk { nodes := nodes - {archFile}; }
        if o.removeDocOk { nodes := nodes - {xmlStatDocFile}; }
      }
      return true;
    }
  }
}
