/** The workout-session table: the upload request that adds a row, the
    owner-only detail lookup, and the per-user history newest first. The file
    system is abstracted to the list of paths written; the clock, the file-name
    sanitiser and the chat service are parameters. */
module Sessions {
  import opened Wrappers
  import opened Filenames
  import opened Analysis

  /** One analysed upload; `createdAt` is the server clock at insertion. */
  datatype WorkoutSession = WorkoutSession(
    id: nat, userId: nat, videoFilename: string, exercise: string,
    analysis: string, feedback: string, notes: string, createdAt: int)

  /** Row ids are 1, 2, 3, ... in insertion order: nothing deletes a session. */
  predicate IdsInOrder(sessions: seq<WorkoutSession>)
  {
    forall i :: 0 <= i < |sessions| ==> sessions[i].id == i + 1
  }

  // ---------------------------------------------------------------------------
  // Upload

  /** The uploaded part of a multipart request, with the name the client gave. */
  datatype VideoFile = VideoFile(filename: string)

  /** An upload request: the `video` file part, if any, and the `notes` field, if any. */
  datatype UploadRequest = UploadRequest(video: Option<VideoFile>, notes: Option<string>)

  datatype UploadOutcome = NoVideoField | NoSelectedFile | InvalidFileType | Uploaded(sessionId: nat)

  /** What one upload request does: its outcome, the session table afterwards,
      and the paths it wrote to storage, in order. */
  datatype UploadEffect = UploadEffect(outcome: UploadOutcome, sessions: seq<WorkoutSession>, saved: seq<string>)

  const UploadFolder := "uploads"

  /** `os.path.join` of two parts on a POSIX system: an absolute second part
      replaces the first. */
  function JoinPath(folder: string, name: string): (path: string)
    ensures name != "" && name[0] == '/' ==> path == name
    ensures (name == "" || name[0] != '/') ==> path == folder + "/" + name
  {
    if name != "" && name[0] == '/' then name else folder + "/" + name
  }

  /** `request.form.get('notes', '')`. */
  function NotesOf(req: UploadRequest): (notes: string)
    ensures req.notes.Some? ==> notes == req.notes.value
    ensures req.notes.None? ==> notes == ""
  {
    if req.notes.Some? then req.notes.value else ""
  }

  /** The row that a successful upload inserts for `caller`. */
  function NewSession(id: nat, caller: nat, filename: string, notes: string, now: int,
                      chat: string -> Result<string, string>): (s: WorkoutSession)
    ensures s.id == id && s.userId == caller && s.videoFilename == filename
    ensures s.exercise == CannedExercise && s.analysis == CannedAnalysis
    ensures s.feedback == GenerateFeedback(CannedExercise, CannedAnalysis, chat)
    ensures s.notes == notes && s.createdAt == now
  {
    var (exercise, analysis) := ProcessVideo(JoinPath(UploadFolder, filename));
    WorkoutSession(id, caller, filename, exercise, analysis,
                   GenerateFeedback(exercise, analysis, chat), notes, now)
  }

  /** `upload`: three gates, checked in order (no `video` part, an empty file
      name, a name that fails the extension gate), each of which stops the
      request with nothing written and nothing inserted; otherwise the file is
      saved once under its sanitised name and exactly one session is inserted
      for the caller. */
  function UploadEffectOf(sessions: seq<WorkoutSession>, req: UploadRequest, caller: nat, now: int,
                          sanitize: string -> string, chat: string -> Result<string, string>): (r: UploadEffect)
    ensures r.outcome == NoVideoField <==> req.video.None?
    ensures r.outcome == NoSelectedFile <==> req.video.Some? && req.video.value.filename == ""
    ensures r.outcome == InvalidFileType <==>
      req.video.Some? && req.video.value.filename != "" && !AllowedFile(req.video.value.filename)
    ensures !r.outcome.Uploaded? ==> r.sessions == sessions && r.saved == []
    ensures r.outcome.Uploaded? ==>
      var name := sanitize(req.video.value.filename);
      && r.outcome.sessionId == |sessions| + 1
      && r.saved == [JoinPath(UploadFolder, name)]
      && |r.sessions| == |sessions| + 1 && r.sessions[..|sessions|] == sessions
      && r.sessions[|sessions|].id == r.outcome.sessionId
      && r.sessions[|sessions|].userId == caller
      && r.sessions[|sessions|].videoFilename == name
      && (r.sessions[|sessions|].exercise, r.sessions[|sessions|].analysis) == ProcessVideo(JoinPath(UploadFolder, name))
      && r.sessions[|sessions|].feedback == GenerateFeedback(r.sessions[|sessions|].exercise, r.sessions[|sessions|].analysis, chat)
      && r.sessions[|sessions|].notes == NotesOf(req)
      && r.sessions[|sessions|].createdAt == now
  {
    if req.video.None? then UploadEffect(NoVideoField, sessions, [])
    else if req.video.value.filename == "" then UploadEffect(NoSelectedFile, sessions, [])
    else if !AllowedFile(req.video.value.filename) then UploadEffect(InvalidFileType, sessions, [])
    else
      var name := sanitize(req.video.value.filename);
      var id := |sessions| + 1;
      assert (sessions + [NewSession(id, caller, name, NotesOf(req), now, chat)])[..|sessions|] == sessions;
      UploadEffect(Uploaded(id), sessions + [NewSession(id, caller, name, NotesOf(req), now, chat)],
                   [JoinPath(UploadFolder, name)])
  }

  /** A file whose name fails the extension gate is never stored and never
      yields a session, whatever else the request holds. */
  lemma DisallowedNeverStored(sessions: seq<WorkoutSession>, name: string, notes: Option<string>, caller: nat,
                              now: int, sanitize: string -> string, chat: string -> Result<string, string>)
    requires !AllowedFile(name)
    ensures var r := UploadEffectOf(sessions, UploadRequest(Some(VideoFile(name)), notes), caller, now, sanitize, chat);
      r.saved == [] && r.sessions == sessions
  {
  }

  /** Uploads keep the row ids in insertion order. */
  lemma UploadPreservesIds(sessions: seq<WorkoutSession>, req: UploadRequest, caller: nat, now: int,
                           sanitize: string -> string, chat: string -> Result<string, string>)
    requires IdsInOrder(sessions)
    ensures IdsInOrder(UploadEffectOf(sessions, req, caller, now, sanitize, chat).sessions)
  {
  }

  // ---------------------------------------------------------------------------
  // Queries

  /** `filter_by(user_id=caller)`: the caller's sessions, in table order. */
  function OwnedBy(sessions: seq<WorkoutSession>, caller: nat): (r: seq<WorkoutSession>)
    ensures forall s :: s in r <==> s in sessions && s.userId == caller
    ensures forall s :: multiset(r)[s] == if s.userId == caller then multiset(sessions)[s] else 0
    ensures |r| <= |sessions|
  {
    if sessions == [] then []
    else
      assert sessions == [sessions[0]] + sessions[1..];
      (if sessions[0].userId == caller then [sessions[0]] else []) + OwnedBy(sessions[1..], caller)
  }

  /** `session_detail`: the first session with this id that belongs to the
      caller; None is the one answer for "no such id" and "not yours". */
  function Detail(sessions: seq<WorkoutSession>, id: nat, caller: nat): (r: Option<WorkoutSession>)
    ensures r.Some? ==> r.value in sessions && r.value.id == id && r.value.userId == caller
    ensures r.None? ==> forall s :: s in sessions ==> !(s.id == id && s.userId == caller)
  {
    if sessions == [] then None
    else if sessions[0].id == id && sessions[0].userId == caller then Some(sessions[0])
    else Detail(sessions[1..], id, caller)
  }

  /** The detail lookup sees only the caller's own sessions. */
  lemma {:induction false} DetailViaOwned(sessions: seq<WorkoutSession>, id: nat, caller: nat)
    ensures Detail(sessions, id, caller) == Detail(OwnedBy(sessions, caller), id, caller)
  {
    if sessions != [] {
      DetailViaOwned(sessions[1..], id, caller);
      if sessions[0].userId == caller {
        assert OwnedBy(sessions, caller) == [sessions[0]] + OwnedBy(sessions[1..], caller);
        assert OwnedBy(sessions, caller)[1..] == OwnedBy(sessions[1..], caller);
      } else {
        assert OwnedBy(sessions, caller) == OwnedBy(sessions[1..], caller);
      }
    }
  }

  /** Other users' sessions cannot change what the caller is shown: two tables
      that agree on the caller's sessions give the same answer for every id. */
  lemma DetailHidesOthers(s1: seq<WorkoutSession>, s2: seq<WorkoutSession>, id: nat, caller: nat)
    requires OwnedBy(s1, caller) == OwnedBy(s2, caller)
    ensures Detail(s1, id, caller) == Detail(s2, id, caller)
  {
    DetailViaOwned(s1, id, caller);
    DetailViaOwned(s2, id, caller);
  }

  /** Asking for another user's session gives not-found. */
  lemma OthersSessionNotFound(sessions: seq<WorkoutSession>, i: nat, caller: nat)
    requires IdsInOrder(sessions) && i < |sessions| && sessions[i].userId != caller
    ensures Detail(sessions, sessions[i].id, caller) == None
  {
  }

  /** Asking for one's own session gives that session. */
  lemma OwnSessionFound(sessions: seq<WorkoutSession>, i: nat)
    requires IdsInOrder(sessions) && i < |sessions|
    ensures Detail(sessions, sessions[i].id, sessions[i].userId) == Some(sessions[i])
  {
    var r := Detail(sessions, sessions[i].id, sessions[i].userId);
    assert sessions[i] in sessions;
    var j :| 0 <= j < |sessions| && sessions[j] == r.value;
    assert j == i;
  }

  /** Non-increasing `createdAt`: the newest session first. */
  predicate NewestFirst(s: seq<WorkoutSession>)
  {
    forall i, j :: 0 <= i < j < |s| ==> s[i].createdAt >= s[j].createdAt
  }

  function InsertByNewest(x: WorkoutSession, s: seq<WorkoutSession>): (r: seq<WorkoutSession>)
    requires NewestFirst(s)
    ensures NewestFirst(r)
    ensures multiset(r) == multiset(s) + multiset{x}
    ensures |r| == |s| + 1 && (r[0] == x || (s != [] && r[0] == s[0]))
  {
    if s == [] then [x]
    else if x.createdAt >= s[0].createdAt then [x] + s
    else
      var rest := InsertByNewest(x, s[1..]);
      assert s == [s[0]] + s[1..];
      assert forall k :: 0 <= k < |rest| ==> s[0].createdAt >= rest[0].createdAt >= rest[k].createdAt;
      [s[0]] + rest
  }

  /** `order_by(created_at.desc())`: ties keep table order. */
  function SortByNewest(s: seq<WorkoutSession>): (r: seq<WorkoutSession>)
    ensures NewestFirst(r)
    ensures multiset(r) == multiset(s)
  {
    if s == [] then []
    else
      assert s == [s[0]] + s[1..];
      InsertByNewest(s[0], SortByNewest(s[1..]))
  }

  /** `dashboard` and `previous_analyses`: exactly the caller's sessions,
      newest first. */
  function History(sessions: seq<WorkoutSession>, caller: nat): (r: seq<WorkoutSession>)
    ensures NewestFirst(r)
    ensures multiset(r) == multiset(OwnedBy(sessions, caller))
    ensures forall s :: multiset(r)[s] == if s.userId == caller then multiset(sessions)[s] else 0
    ensures forall s :: s in r <==> s in sessions && s.userId == caller
  {
    var r := SortByNewest(OwnedBy(sessions, caller));
    assert forall s :: s in r <==> s in multiset(OwnedBy(sessions, caller));
    r
  }

  // ---------------------------------------------------------------------------
  // The store

  /** The in-memory session table, with the paths the application has written. */
  class SessionStore {
    var sessions: seq<WorkoutSession>
    /** Every path passed to `file.save`, in order. */
    ghost var written: seq<string>

    ghost predicate Valid()
      reads this
    {
      IdsInOrder(sessions)
    }

    constructor ()
      ensures Valid() && sessions == [] && written == []
    {
      sessions := [];
      written := [];
    }

    /** `upload`, for the logged-in user `caller` at clock reading `now`. */
    method Upload(req: UploadRequest, caller: nat, now: int,
                  sanitize: string -> string, chat: string -> Result<string, string>)
      returns (outcome: UploadOutcome)
      requires Valid()
      modifies this
      ensures Valid()
      ensures var e := UploadEffectOf(old(sessions), req, caller, now, sanitize, chat);
        outcome == e.outcome && sessions == e.sessions && written == old(written) + e.saved
    {
      UploadPreservesIds(sessions, req, caller, now, sanitize, chat);
      if req.video.None? {
        return NoVideoField;
      }
      var file := req.video.value;
      var notes := NotesOf(req);
      if file.filename == "" {
        return NoSelectedFile;
      }
      if AllowedFile(file.filename) {
        var filename := sanitize(file.filename);
        var videoPath := JoinPath(UploadFolder, filename);
        written := written + [videoPath];
        var newSession := NewSession(|sessions| + 1, caller, filename, notes, now, chat);
        sessions := sessions + [newSession];
        return Uploaded(newSession.id);
      }
      return InvalidFileType;
    }
  }
}
