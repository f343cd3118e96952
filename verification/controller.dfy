/**
 * The three operations of the lecturer controller that touch the rank
 * ledger: create, delete and list. Each runs as one relational transaction;
 * a statement that throws makes it roll back, which here means the
 * outcome carries the relational state as it was before the call. The
 * bucket is outside the transaction, so whatever was uploaded or removed
 * before the failure stays that way.
 *
 * Which statement throws, if any, is a parameter (`fault`): the database,
 * the bucket and the URL signer are not modelled, only the fact that each
 * of their calls may fail.
 */
module LecturerController {
  import opened Outcomes
  import opened RankTable
  import opened Text
  import opened Store

  /** The multipart form of a create request. `picture` is the uploaded
      file, absent when none was sent. */
  datatype LecturerRequest = LecturerRequest(
    name: string,
    designation: string,
    qualifications: string,
    lecturerType: string,
    picture: Option<seq<bv8>>,
    linkedin: string)

  /** What the `picture` field of a response carries: a V4-signed URL for a
      blob (after create) or the stored blob name (in a listing). */
  datatype Link = SignedUrl(blob: string) | StoredName(blob: string)

  datatype LecturerResponse = LecturerResponse(
    id: nat,
    name: string,
    designation: string,
    qualifications: string,
    lecturerType: string,
    picture: Option<Link>,
    linkedin: string)

  /** The calls in `createNewLecturer` that can throw, in execution order. */
  datatype CreateStep =
    | InsertLecturer   // INSERT INTO lecturer
    | ReadGeneratedKey // getGeneratedKeys, next, getInt: the key is already spent
    | SetPicture       // UPDATE lecturer SET picture (only with a picture)
    | ReadMaxRank      // SELECT rank ... ORDER BY rank DESC LIMIT 1
    | InsertRank       // INSERT INTO <rank table>
    | UploadPicture    // bucket.create (only with a picture)
    | SignPictureUrl   // blob.signUrl (only with a picture)
    | CommitCreate     // connection.commit

  /** The calls in `deleteLecturer` that can throw, in execution order. */
  datatype DeleteStep =
    | CheckExists        // SELECT * FROM lecturer WHERE id = ?
    | ReadRanks          // the LEFT OUTER JOIN reading both ranks and the picture
    | DeleteRankRow      // DELETE FROM <rank table> WHERE rank = r
    | ShiftRanks         // UPDATE <rank table> SET rank = rank - 1 WHERE rank > r
    | DeleteLecturerRow  // DELETE FROM lecturer WHERE id = ?
    | DeletePicture      // bucket.get(picture).delete() (only with a picture)
    | CommitDelete       // connection.commit

  datatype Error = NotFound | CreateFailed(createStep: CreateStep) | DeleteFailed(deleteStep: DeleteStep)

  /** The result of an operation together with the state it leaves. */
  datatype Outcome<T> = Outcome(result: Result<T, Error>, world: World)

  /** `getPicture() != null && !getPicture().isEmpty()`. */
  predicate HasPicture(req: LecturerRequest) {
    req.picture.Some? && |req.picture.value| > 0
  }

  /** The rank table a type string selects. */
  function CategoryOf(lecturerType: string): Category {
    if IsFullTime(lecturerType) then FullTime else PartTime
  }

  /** Whether `step` is executed at all; the picture steps run only when a
      picture was uploaded. */
  predicate CreateRuns(step: CreateStep, withPicture: bool) {
    match step
    case SetPicture | UploadPicture | SignPictureUrl => withPicture
    case _ => true
  }

  /** Whether the injected fault is `step`. */
  predicate Throws<S(==)>(fault: Option<S>, step: S) {
    fault == Some(step)
  }

  /** The statements of the create transaction against `db`: insert the
      lecturer row under key `id`; with a picture, set its picture name; add
      a rank row at the next rank of the table the type selects. */
  function CreateStatements(db: Db, id: nat, req: LecturerRequest): (db': Db)
    ensures db'.lecturers.Keys == db.lecturers.Keys + {id}
    ensures db'.lecturers[id] == Lecturer(req.name, req.designation, req.qualifications, req.linkedin,
                                          if HasPicture(req) then Some(PictureName(id, req.name)) else None)
    ensures forall k :: k in db.lecturers && k != id ==> db'.lecturers[k] == db.lecturers[k]
    ensures db'.TableOf(Other(CategoryOf(req.lecturerType))) == db.TableOf(Other(CategoryOf(req.lecturerType)))
    ensures var t := db.TableOf(CategoryOf(req.lecturerType));
      |db'.TableOf(CategoryOf(req.lecturerType))| == |t| + 1 &&
      Ids(db'.TableOf(CategoryOf(req.lecturerType))) == Ids(t) + {id}
  {
    var inserted := db.(lecturers := db.lecturers[id := Lecturer(req.name, req.designation, req.qualifications, req.linkedin, None)]);
    var named :=
      if HasPicture(req) then inserted.(lecturers := inserted.lecturers[id := inserted.lecturers[id].(picture := Some(PictureName(id, req.name)))])
      else inserted;
    var category := CategoryOf(req.lecturerType);
    var rank := NextRank(named.TableOf(category));
    AppendRow(named.TableOf(category), Row(id, rank));
    named.WithTable(category, named.TableOf(category) + [Row(id, rank)])
  }

  /** `createNewLecturer`. The lecturer row is inserted and takes the next
      generated id; with a picture, its name `id-name` is written to the row;
      a rank row is added at the next rank of the selected table; with a
      picture, the blob is uploaded and a signed URL made; then the
      transaction commits. A failing statement rolls the relational state
      back to `w.db`. */
  function Create(w: World, req: LecturerRequest, fault: Option<CreateStep>): (o: Outcome<LecturerResponse>)
    ensures o.result.Ok? <==> fault.None? || !CreateRuns(fault.value, HasPicture(req))
    ensures o.result.Err? ==> o.result.error == CreateFailed(fault.value) && o.world.db == w.db
    ensures o.world.nextId == if Throws(fault, InsertLecturer) then w.nextId else w.nextId + 1
    ensures w.blobs <= o.world.blobs <= w.blobs + {PictureName(w.nextId, req.name)}
    ensures o.result.Ok? ==> o.result.value.id == w.nextId
    ensures o.result.Ok? ==> o.world.db.lecturers.Keys == w.db.lecturers.Keys + {w.nextId}
  {
    var id := w.nextId;
    var withPicture := HasPicture(req);
    var picture := PictureName(id, req.name);
    if Throws(fault, InsertLecturer) then Outcome(Err(CreateFailed(InsertLecturer)), w)
    else
      // The generated key is used up whether or not the transaction commits.
      var keyUsed := w.(nextId := id + 1);
      if Throws(fault, ReadGeneratedKey) then Outcome(Err(CreateFailed(ReadGeneratedKey)), keyUsed)
      else if withPicture && Throws(fault, SetPicture) then Outcome(Err(CreateFailed(SetPicture)), keyUsed)
      else if Throws(fault, ReadMaxRank) then Outcome(Err(CreateFailed(ReadMaxRank)), keyUsed)
      else if Throws(fault, InsertRank) then Outcome(Err(CreateFailed(InsertRank)), keyUsed)
      else if withPicture && Throws(fault, UploadPicture) then Outcome(Err(CreateFailed(UploadPicture)), keyUsed)
      else
        // The upload is not part of the transaction: it stays on rollback.
        var uploaded := if withPicture then keyUsed.(blobs := w.blobs + {picture}) else keyUsed;
        if withPicture && Throws(fault, SignPictureUrl) then Outcome(Err(CreateFailed(SignPictureUrl)), uploaded)
        else if Throws(fault, CommitCreate) then Outcome(Err(CreateFailed(CommitCreate)), uploaded)
        else
          assert fault.Some? ==> fault.value.SetPicture? || fault.value.UploadPicture? || fault.value.SignPictureUrl?;
          var response := LecturerResponse(id, req.name, req.designation, req.qualifications, req.lecturerType,
                                           if withPicture then Some(SignedUrl(picture)) else None, req.linkedin);
          Outcome(Ok(response), uploaded.(db := CreateStatements(w.db, id, req)))
  }

  /** The table `deleteLecturer` works on: the full-time table when the
      lecturer's full-time rank reads positive, otherwise the part-time one. */
  function RankedIn(db: Db, id: nat): Category {
    if RankOf(db.fullTime, id) > 0 then FullTime else PartTime
  }

  /** The statements of the delete transaction against `db`: read the
      lecturer's full-time and part-time ranks (0 where there is none); use
      the full-time table when the full-time rank is positive, otherwise the
      part-time table; delete the row at that rank, shift the ranks above it
      down by one, and delete the lecturer row. */
  function DeleteStatements(db: Db, id: nat): (db': Db)
    ensures db'.lecturers == db.lecturers - {id}
    ensures db'.TableOf(Other(RankedIn(db, id))) == db.TableOf(Other(RankedIn(db, id)))
    ensures var t := db.TableOf(RankedIn(db, id));
      |db'.TableOf(RankedIn(db, id))| <= |t| &&
      Ids(db'.TableOf(RankedIn(db, id))) <= Ids(t)
  {
    var ftr := RankOf(db.fullTime, id);
    var ptr := RankOf(db.partTime, id);
    var category := RankedIn(db, id);
    var rank := if ftr > 0 then ftr else ptr;
    ShiftDownKeepsIds(DeleteRank(db.TableOf(category), rank), rank);
    var deleted := db.WithTable(category, DeleteRank(db.TableOf(category), rank));
    var shifted := deleted.WithTable(category, ShiftDown(deleted.TableOf(category), rank));
    shifted.(lecturers := shifted.lecturers - {id})
  }

  /** `deleteLecturer`. An id with no lecturer row is not found. Otherwise
      the transaction's statements run, then the picture blob (if the row
      names one) is deleted from the bucket, then the transaction commits.
      A failing statement rolls the relational state back to `w.db`; a
      picture deleted before a failed commit stays deleted. */
  function Delete(w: World, id: nat, fault: Option<DeleteStep>): (o: Outcome<()>)
    ensures id !in w.db.lecturers && !Throws(fault, CheckExists) ==> o == Outcome(Err(NotFound), w)
    ensures o.result.Err? ==> o.world.db == w.db
    ensures o.world.nextId == w.nextId
    ensures o.world.blobs <= w.blobs
    ensures o.result.Ok? ==> o.world.db.lecturers.Keys == w.db.lecturers.Keys - {id}
  {
    if Throws(fault, CheckExists) then Outcome(Err(DeleteFailed(CheckExists)), w)
    else if id !in w.db.lecturers then Outcome(Err(NotFound), w)
    else if Throws(fault, ReadRanks) then Outcome(Err(DeleteFailed(ReadRanks)), w)
    else if Throws(fault, DeleteRankRow) then Outcome(Err(DeleteFailed(DeleteRankRow)), w)
    else if Throws(fault, ShiftRanks) then Outcome(Err(DeleteFailed(ShiftRanks)), w)
    else if Throws(fault, DeleteLecturerRow) then Outcome(Err(DeleteFailed(DeleteLecturerRow)), w)
    else
      var picture := w.db.lecturers[id].picture;
      // A missing blob makes `bucket.get` return null, and the dereference
      // throws like a failed delete.
      if picture.Some? && (Throws(fault, DeletePicture) || picture.value !in w.blobs) then
        Outcome(Err(DeleteFailed(DeletePicture)), w)
      else
        // The blob is gone before the commit; a rollback does not bring it back.
        var removed := if picture.Some? then w.(blobs := w.blobs - {picture.value}) else w;
        if Throws(fault, CommitDelete) then Outcome(Err(DeleteFailed(CommitDelete)), removed)
        else Outcome(Ok(()), removed.(db := DeleteStatements(w.db, id)))
  }

  /** One listed lecturer: the row's fields, the given type typeLabel, and the
      stored picture name. */
  function Describe(id: nat, l: Lecturer, typeLabel: string): LecturerResponse {
    LecturerResponse(id, l.name, l.designation, l.qualifications, typeLabel,
                     if l.picture.Some? then Some(StoredName(l.picture.value)) else None, l.linkedin)
  }

  /** `SELECT * FROM lecturer l INNER JOIN <rank table> ...` over rank rows
      already in order: one response per rank row whose lecturer exists, in
      the order of the rows. */
  function Join(lecturers: map<nat, Lecturer>, rows: Table, typeLabel: string): (r: seq<LecturerResponse>)
    ensures |r| <= |rows|
    ensures forall i :: 0 <= i < |r| ==> r[i].id in lecturers && r[i] == Describe(r[i].id, lecturers[r[i].id], typeLabel)
    ensures (forall i :: 0 <= i < |rows| ==> rows[i].lecturerId in lecturers) ==>
      |r| == |rows| && forall i :: 0 <= i < |r| ==> r[i].id == rows[i].lecturerId
  {
    if |rows| == 0 then []
    else
      var rest := Join(lecturers, rows[1..], typeLabel);
      assert forall i :: 1 <= i < |rows| ==> rows[i] == rows[1..][i - 1];
      var id := rows[0].lecturerId;
      if id in lecturers then [Describe(id, lecturers[id], typeLabel)] + rest else rest
  }

  /** `getAllLecturers`: the full-time lecturers by ascending rank, then the
      part-time lecturers by ascending rank. */
  function ListLecturers(db: Db): (r: seq<LecturerResponse>)
    ensures |r| <= |db.fullTime| + |db.partTime|
    ensures forall i :: 0 <= i < |r| ==> r[i].lecturerType == FullTimeLabel || r[i].lecturerType == PartTimeLabel
  {
    Join(db.lecturers, SortByRank(db.fullTime), FullTimeLabel) + Join(db.lecturers, SortByRank(db.partTime), PartTimeLabel)
  }
}
