/**
 * Properties of the lecturer controller: what create and delete do to the
 * rank ledger, that they keep it dense, how the bucket and the relational
 * state drift apart on failure, and the order of the listing.
 */
module ControllerProofs {
  import opened Outcomes
  import opened RankTable
  import opened Text
  import opened Store
  import opened LecturerController

  // ---------------------------------------------------------------- create

  /** A successful create appends the new lecturer to the table its type
      selects, at one above the table's greatest rank (1 when empty), adds
      the lecturer row, and leaves the other table alone. */
  lemma CreateAppendsRank(w: World, req: LecturerRequest, fault: Option<CreateStep>)
    requires Create(w, req, fault).result.Ok?
    ensures var c := CategoryOf(req.lecturerType);
      var db' := Create(w, req, fault).world.db;
      && db'.TableOf(c) == w.db.TableOf(c) + [Row(w.nextId, NextRank(w.db.TableOf(c)))]
      && db'.TableOf(Other(c)) == w.db.TableOf(Other(c))
      && db'.lecturers == w.db.lecturers[w.nextId := Lecturer(req.name, req.designation, req.qualifications, req.linkedin,
                                                              db'.lecturers[w.nextId].picture)]
  {
  }

  /** Against a valid state, a successful create puts the lecturer at rank
      `N + 1` of a table that held exactly `1..N`, so it now holds `1..N+1`;
      the lecturer is full-time exactly when its type equals "full-time"
      ignoring case. */
  lemma CreateExtendsDenseTable(w: World, req: LecturerRequest, fault: Option<CreateStep>)
    requires Valid(w)
    requires Create(w, req, fault).result.Ok?
    ensures var c := CategoryOf(req.lecturerType);
      var t := w.db.TableOf(c);
      var t' := Create(w, req, fault).world.db.TableOf(c);
      && t' == t + [Row(w.nextId, |t| + 1)]
      && Ranks(t') == Interval(|t| + 1)
    ensures (w.nextId in Ids(Create(w, req, fault).world.db.fullTime)) <==> IsFullTime(req.lecturerType)
    ensures (w.nextId in Ids(Create(w, req, fault).world.db.partTime)) <==> !IsFullTime(req.lecturerType)
  {
    var c := CategoryOf(req.lecturerType);
    var t := w.db.TableOf(c);
    CreateAppendsRank(w, req, fault);
    AppendKeepsDense(t, w.nextId);
    AppendRow(t, Row(w.nextId, |t| + 1));
    assert w.nextId !in w.db.lecturers;
  }

  /** A committed create leaves exactly the state of its statements. */
  lemma CreateCommitted(w: World, req: LecturerRequest, fault: Option<CreateStep>)
    requires Create(w, req, fault).result.Ok?
    ensures Create(w, req, fault).world.db == CreateStatements(w.db, w.nextId, req)
    ensures Create(w, req, fault).world.nextId == w.nextId + 1
  {
  }

  /** The create statements keep both tables dense with distinct ids. */
  lemma CreateStatementsKeepTables(w: World, req: LecturerRequest)
    requires Valid(w)
    ensures var db' := CreateStatements(w.db, w.nextId, req);
      && Dense(db'.fullTime) && Dense(db'.partTime)
      && DistinctIds(db'.fullTime) && DistinctIds(db'.partTime)
  {
    var id := w.nextId;
    var c := CategoryOf(req.lecturerType);
    var t := w.db.TableOf(c);
    var db' := CreateStatements(w.db, id, req);
    assert id !in w.db.lecturers;
    AppendKeepsDense(t, id);
    AppendRow(t, Row(id, |t| + 1));
    assert db'.TableOf(c) == t + [Row(id, |t| + 1)];
    assert db'.TableOf(Other(c)) == w.db.TableOf(Other(c));
  }

  /** The create statements keep the tables a partition of the lecturers. */
  lemma CreateStatementsKeepPartition(w: World, req: LecturerRequest)
    requires Valid(w)
    ensures var db' := CreateStatements(w.db, w.nextId, req);
      && Ids(db'.fullTime) !! Ids(db'.partTime)
      && Ids(db'.fullTime) + Ids(db'.partTime) == db'.lecturers.Keys
  {
    var id := w.nextId;
    var c := CategoryOf(req.lecturerType);
    var t := w.db.TableOf(c);
    var db' := CreateStatements(w.db, id, req);
    assert id !in w.db.lecturers;
    AppendKeepsDense(t, id);
    AppendRow(t, Row(id, |t| + 1));
    assert db'.TableOf(c) == t + [Row(id, |t| + 1)];
    assert db'.TableOf(Other(c)) == w.db.TableOf(Other(c));
  }

  /** The create statements name a picture only `id-name`. */
  lemma CreateStatementsKeepPictureNames(w: World, req: LecturerRequest)
    requires Valid(w)
    ensures var db' := CreateStatements(w.db, w.nextId, req);
      forall k :: k in db'.lecturers && db'.lecturers[k].picture.Some? ==>
        db'.lecturers[k].picture.value == PictureName(k, db'.lecturers[k].name)
  {
    var id := w.nextId;
    var db' := CreateStatements(w.db, id, req);
    forall k | k in db'.lecturers && db'.lecturers[k].picture.Some?
      ensures db'.lecturers[k].picture.value == PictureName(k, db'.lecturers[k].name)
    {
      if k != id {
        assert db'.lecturers[k] == w.db.lecturers[k];
      }
    }
  }

  /** The statements of a create against a valid state, with the next id
      spent, keep every invariant of the ledger. */
  lemma CreateStatementsValid(w: World, req: LecturerRequest, blobs: set<string>)
    requires Valid(w)
    ensures Valid(World(CreateStatements(w.db, w.nextId, req), w.nextId + 1, blobs))
  {
    CreateStatementsKeepTables(w, req);
    CreateStatementsKeepPartition(w, req);
    CreateStatementsKeepPictureNames(w, req);
  }

  /** Create keeps every invariant of the ledger, whether it commits or
      rolls back. */
  lemma CreatePreservesValid(w: World, req: LecturerRequest, fault: Option<CreateStep>)
    requires Valid(w)
    ensures Valid(Create(w, req, fault).world)
  {
    var o := Create(w, req, fault);
    if o.result.Ok? {
      CreateCommitted(w, req, fault);
      CreateStatementsValid(w, req, o.world.blobs);
      assert o.world == World(CreateStatements(w.db, w.nextId, req), w.nextId + 1, o.world.blobs);
    }
  }

  /** The picture: with a non-empty upload, the row stores `id-name`, the
      blob of that name is in the bucket and the response carries a signed
      URL for it; otherwise the row has no picture, the bucket is untouched
      and the response has no URL. The other fields echo the request. */
  lemma CreatePicture(w: World, req: LecturerRequest, fault: Option<CreateStep>)
    requires Create(w, req, fault).result.Ok?
    ensures var o := Create(w, req, fault);
      var r := o.result.value;
      var pic := PictureName(w.nextId, req.name);
      && r == LecturerResponse(w.nextId, req.name, req.designation, req.qualifications, req.lecturerType, r.picture, req.linkedin)
      && (HasPicture(req) ==>
            && r.picture == Some(SignedUrl(pic))
            && o.world.db.lecturers[w.nextId].picture == Some(pic)
            && o.world.blobs == w.blobs + {pic})
      && (!HasPicture(req) ==>
            && r.picture.None?
            && o.world.db.lecturers[w.nextId].picture.None?
            && o.world.blobs == w.blobs)
  {
  }

  /** On failure the relational state is rolled back, but a picture that was
      already uploaded (the failure came from signing the URL or from the
      commit) stays in the bucket. */
  lemma CreateFailureKeepsUpload(w: World, req: LecturerRequest, fault: Option<CreateStep>)
    requires Create(w, req, fault).result.Err?
    ensures var o := Create(w, req, fault);
      && o.world.db == w.db
      && o.world.blobs == if HasPicture(req) && fault.value in {SignPictureUrl, CommitCreate}
                          then w.blobs + {PictureName(w.nextId, req.name)}
                          else w.blobs
  {
  }

  /** A commit failure after a successful upload leaves an orphan: a blob in
      the bucket that no lecturer row names. */
  lemma CreateCommitFailureOrphansPicture(w: World, req: LecturerRequest)
    requires Valid(w)
    requires HasPicture(req)
    ensures var o := Create(w, req, Some(CommitCreate));
      && o.result == Err(CreateFailed(CommitCreate))
      && o.world.db == w.db
      && PictureName(w.nextId, req.name) in o.world.blobs
      && forall id :: id in o.world.db.lecturers ==> o.world.db.lecturers[id].picture != Some(PictureName(w.nextId, req.name))
  {
    var pic := PictureName(w.nextId, req.name);
    forall id | id in w.db.lecturers
      ensures w.db.lecturers[id].picture != Some(pic)
    {
      if w.db.lecturers[id].picture == Some(pic) {
        PictureNameInjective(id, w.db.lecturers[id].name, w.nextId, req.name);
      }
    }
  }

  /** Whatever happens, create never leaves a lecturer row naming a picture
      that is not in the bucket. */
  lemma CreateKeepsPicturesStored(w: World, req: LecturerRequest, fault: Option<CreateStep>)
    requires PicturesStored(w)
    ensures PicturesStored(Create(w, req, fault).world)
  {
    var o := Create(w, req, fault);
    if o.result.Ok? {
      CreatePicture(w, req, fault);
      CreateAppendsRank(w, req, fault);
    }
  }

  // ---------------------------------------------------------------- delete

  /** Against a valid state, the table `deleteLecturer` picks is the one the
      lecturer is ranked in, at a rank in `1..N`. */
  lemma DeletePicksOwnTable(w: World, id: nat)
    requires Valid(w)
    requires id in w.db.lecturers
    ensures var c := RankedIn(w.db, id);
      && id in Ids(w.db.TableOf(c))
      && id !in Ids(w.db.TableOf(Other(c)))
      && Row(id, RankOf(w.db.TableOf(c), id)) in w.db.TableOf(c)
      && 1 <= RankOf(w.db.TableOf(c), id) <= |w.db.TableOf(c)|
  {
    var ft := w.db.fullTime;
    var pt := w.db.partTime;
    DenseIff(ft);
    DenseIff(pt);
    if id in Ids(ft) {
      var i := IdIndex(ft, id);
      RankOfRow(ft, ft[i]);
    } else {
      var i := IdIndex(pt, id);
      RankOfRow(pt, pt[i]);
      assert RankOf(ft, id) == 0;
    }
  }

  /** A committed delete's relational state is the transaction's. */
  lemma DeleteCommitted(w: World, id: nat, fault: Option<DeleteStep>)
    requires Delete(w, id, fault).result.Ok?
    ensures Delete(w, id, fault).world.db == DeleteStatements(w.db, id)
    ensures Delete(w, id, fault).world.blobs ==
      if w.db.lecturers[id].picture.Some? then w.blobs - {w.db.lecturers[id].picture.value} else w.blobs
  {
  }

  /** The delete transaction: the picked table with the rank removed and the
      gap closed, and the lecturer row gone. */
  lemma DeleteStatementsEffect(db: Db, id: nat)
    ensures var c := RankedIn(db, id);
      DeleteStatements(db, id) == db.WithTable(c, Remove(db.TableOf(c), RankOf(db.TableOf(c), id))).(lecturers := db.lecturers - {id})
  {
    if RankOf(db.fullTime, id) > 0 {
      assert DeleteStatements(db, id) == Db(db.lecturers - {id}, Remove(db.fullTime, RankOf(db.fullTime, id)), db.partTime);
    } else {
      assert DeleteStatements(db, id) == Db(db.lecturers - {id}, db.fullTime, Remove(db.partTime, RankOf(db.partTime, id)));
    }
  }

  /** The delete statements for a lecturer at rank `r` of table T remove
      `r` from T and close the gap, so T goes from `1..N` to `1..N-1` and
      loses exactly the lecturer's id; the other table and the other
      lecturers are untouched. */
  lemma DeleteStatementsCloseGap(w: World, id: nat)
    requires Valid(w)
    requires id in w.db.lecturers
    ensures var c := RankedIn(w.db, id);
      var t := w.db.TableOf(c);
      var r := RankOf(t, id);
      var db' := DeleteStatements(w.db, id);
      && Row(id, r) in t
      && db'.TableOf(c) == Remove(t, r)
      && Ids(db'.TableOf(c)) == Ids(t) - {id}
      && DistinctIds(db'.TableOf(c))
      && |db'.TableOf(c)| == |t| - 1
      && Dense(db'.TableOf(c))
      && db'.TableOf(Other(c)) == w.db.TableOf(Other(c))
      && db'.lecturers == w.db.lecturers - {id}
  {
    var c := RankedIn(w.db, id);
    var t := w.db.TableOf(c);
    var r := RankOf(t, id);
    DeleteStatementsEffect(w.db, id);
    DeletePicksOwnTable(w, id);
    assert DistinctIds(t) && Dense(t);
    DenseIff(t);
    RemoveKeepsDense(t, r);
    DeleteRankDropsId(t, id, r);
    ShiftDownKeepsIds(DeleteRank(t, r), r);
  }

  /** A successful delete of a ranked lecturer at rank `r` of table T:
      the row at `r` goes, every rank above `r` in T drops by exactly one,
      ranks below `r` stay, the other table and the other lecturers are
      untouched, and T goes from `1..N` to `1..N-1`. */
  lemma DeleteClosesGap(w: World, id: nat, fault: Option<DeleteStep>)
    requires Valid(w)
    requires Delete(w, id, fault).result.Ok?
    ensures id in w.db.lecturers
    ensures var c := RankedIn(w.db, id);
      var t := w.db.TableOf(c);
      var r := RankOf(t, id);
      var db' := Delete(w, id, fault).world.db;
      && Row(id, r) in t
      && (forall row :: row in t && row.rank < r ==> row in db'.TableOf(c))
      && (forall row :: row in t && row.rank > r ==> Row(row.lecturerId, row.rank - 1) in db'.TableOf(c))
      && (forall row :: row in db'.TableOf(c) ==>
            (row.rank < r && row in t) || (row.rank >= r && Row(row.lecturerId, row.rank + 1) in t))
      && Ids(db'.TableOf(c)) == Ids(t) - {id}
      && |db'.TableOf(c)| == |t| - 1
      && Ranks(db'.TableOf(c)) == Interval(|t| - 1)
      && db'.TableOf(Other(c)) == w.db.TableOf(Other(c))
      && db'.lecturers == w.db.lecturers - {id}
  {
    DeleteSucceedsIff(w, id, fault);
    DeleteCommitted(w, id, fault);
    DeleteStatementsCloseGap(w, id);
    var c := RankedIn(w.db, id);
    var t := w.db.TableOf(c);
    RemoveEffect(t, RankOf(t, id));
  }

  /** The delete statements keep both tables dense with distinct ids. */
  lemma DeleteStatementsKeepTables(w: World, id: nat)
    requires Valid(w)
    requires id in w.db.lecturers
    ensures var db' := DeleteStatements(w.db, id);
      && Dense(db'.fullTime) && Dense(db'.partTime)
      && DistinctIds(db'.fullTime) && DistinctIds(db'.partTime)
  {
    DeleteStatementsCloseGap(w, id);
  }

  /** The delete statements keep the tables a partition of the lecturers. */
  lemma DeleteStatementsKeepPartition(w: World, id: nat)
    requires Valid(w)
    requires id in w.db.lecturers
    ensures var db' := DeleteStatements(w.db, id);
      && Ids(db'.fullTime) !! Ids(db'.partTime)
      && Ids(db'.fullTime) + Ids(db'.partTime) == db'.lecturers.Keys
  {
    var c := RankedIn(w.db, id);
    DeleteStatementsCloseGap(w, id);
    DeletePicksOwnTable(w, id);
    PartitionWithout(Ids(w.db.TableOf(c)), Ids(w.db.TableOf(Other(c))), w.db.lecturers.Keys, id);
  }

  /** Taking one element out of one side of a partition. */
  lemma PartitionWithout(a: set<nat>, b: set<nat>, k: set<nat>, x: nat)
    requires a !! b && a + b == k && x !in b
    ensures (a - {x}) !! b && (a - {x}) + b == k - {x}
  {
  }

  /** The statements of a delete against a valid state keep every invariant
      of the ledger. */
  lemma DeleteStatementsValid(w: World, id: nat, blobs: set<string>)
    requires Valid(w)
    requires id in w.db.lecturers
    ensures Valid(World(DeleteStatements(w.db, id), w.nextId, blobs))
  {
    DeleteStatementsKeepTables(w, id);
    DeleteStatementsKeepPartition(w, id);
    DeleteStatementsCloseGap(w, id);
  }

  /** Delete keeps every invariant of the ledger, whether it commits or
      rolls back. */
  lemma DeletePreservesValid(w: World, id: nat, fault: Option<DeleteStep>)
    requires Valid(w)
    ensures Valid(Delete(w, id, fault).world)
  {
    var o := Delete(w, id, fault);
    if o.result.Ok? {
      DeleteSucceedsIff(w, id, fault);
      DeleteCommitted(w, id, fault);
      DeleteStatementsValid(w, id, o.world.blobs);
      assert o.world == World(DeleteStatements(w.db, id), w.nextId, o.world.blobs);
    }
  }

  /** Delete commits exactly when the lecturer exists, no statement throws
      (a fault injected into the picture step does not count when there is
      no picture), and the lecturer's picture, if any, is in the bucket. */
  lemma DeleteSucceedsIff(w: World, id: nat, fault: Option<DeleteStep>)
    ensures Delete(w, id, fault).result.Ok? <==>
      && id in w.db.lecturers
      && (fault.None? || (Throws(fault, DeletePicture) && w.db.lecturers[id].picture.None?))
      && (w.db.lecturers[id].picture.Some? ==> w.db.lecturers[id].picture.value in w.blobs)
  {
    match fault
    case None =>
    case Some(step) =>
      match step
      case CheckExists =>
      case ReadRanks =>
      case DeleteRankRow =>
      case ShiftRanks =>
      case DeleteLecturerRow =>
      case DeletePicture =>
      case CommitDelete =>
  }

  /** Why `Valid` asks that every lecturer have exactly one rank row: a
      lecturer row with no rank row reads 0 from both joins, so the
      part-time table is picked at rank 0, nothing is deleted from it, and
      every part-time rank is shifted down, leaving a rank 0 and a table
      that is no longer dense. */
  lemma DeleteUnrankedShiftsPartTime(w: World, id: nat)
    requires id in w.db.lecturers
    requires id !in Ids(w.db.fullTime) && id !in Ids(w.db.partTime)
    requires w.db.lecturers[id].picture.Some? ==> w.db.lecturers[id].picture.value in w.blobs
    requires Dense(w.db.partTime) && |w.db.partTime| > 0
    ensures var o := Delete(w, id, None);
      && o.result.Ok?
      && o.world.db.fullTime == w.db.fullTime
      && o.world.db.partTime == Remove(w.db.partTime, 0)
      && |o.world.db.partTime| == |w.db.partTime|
      && 0 in Ranks(o.world.db.partTime)
      && !Dense(o.world.db.partTime)
  {
    DeleteSucceedsIff(w, id, None);
    DeleteCommitted(w, id, None);
    DeleteStatementsEffect(w.db, id);
    RemoveZeroBreaksDense(w.db.partTime);
  }

  /** A commit failure after the picture was deleted rolls the lecturer row
      back but not the blob: the restored row names a picture that is no
      longer in the bucket. */
  lemma DeleteCommitFailureDanglesPicture(w: World, id: nat)
    requires id in w.db.lecturers
    requires w.db.lecturers[id].picture.Some?
    requires w.db.lecturers[id].picture.value in w.blobs
    ensures var o := Delete(w, id, Some(CommitDelete));
      && o.result == Err(DeleteFailed(CommitDelete))
      && o.world.db == w.db
      && o.world.blobs == w.blobs - {w.db.lecturers[id].picture.value}
      && !PicturesStored(o.world)
  {
  }

  /** Together the two windows above make the lecturer undeletable: once a
      delete has failed at its commit, a retry finds the picture gone and
      fails at the blob lookup, leaving everything as it was. */
  lemma DeleteCommitFailureBlocksRetry(w: World, id: nat)
    requires id in w.db.lecturers
    requires w.db.lecturers[id].picture.Some?
    requires w.db.lecturers[id].picture.value in w.blobs
    ensures var failed := Delete(w, id, Some(CommitDelete)).world;
      Delete(failed, id, None) == Outcome(Err(DeleteFailed(DeletePicture)), failed)
  {
    DeleteCommitFailureDanglesPicture(w, id);
  }

  /** A lecturer row naming a picture that is missing from the bucket cannot
      be deleted: the lookup yields null and the transaction rolls back. */
  lemma DeleteNeedsStoredPicture(w: World, id: nat, fault: Option<DeleteStep>)
    requires id in w.db.lecturers
    requires w.db.lecturers[id].picture.Some? && w.db.lecturers[id].picture.value !in w.blobs
    requires fault.None?
    ensures Delete(w, id, fault) == Outcome(Err(DeleteFailed(DeletePicture)), w)
  {
  }

  /** A committed delete takes the lecturer's own blob out of the bucket and
      leaves every other lecturer's picture in place. */
  lemma DeleteKeepsPicturesStored(w: World, id: nat, fault: Option<DeleteStep>)
    requires Valid(w) && PicturesStored(w)
    requires Delete(w, id, fault).result.Ok?
    ensures var o := Delete(w, id, fault);
      && PicturesStored(o.world)
      && (w.db.lecturers[id].picture.Some? ==> w.db.lecturers[id].picture.value !in o.world.blobs)
  {
    var o := Delete(w, id, fault);
    DeleteCommitted(w, id, fault);
    var pic := w.db.lecturers[id].picture;
    assert o.world.blobs == if pic.Some? then w.blobs - {pic.value} else w.blobs;
    forall other | other in o.world.db.lecturers && o.world.db.lecturers[other].picture.Some?
      ensures o.world.db.lecturers[other].picture.value in o.world.blobs
    {
      assert o.world.db.lecturers[other] == w.db.lecturers[other];
      if pic.Some? {
        PicturesExclusive(w, other, id);
      }
    }
  }

  // ---------------------------------------------------------------- list

  /** One half of the listing: the lecturers of a dense table in rank order,
      the one at rank `i + 1` in position `i`. */
  lemma JoinDenseTable(lecturers: map<nat, Lecturer>, t: Table, typeLabel: string)
    requires Dense(t)
    requires Ids(t) <= lecturers.Keys
    ensures var j := Join(lecturers, SortByRank(t), typeLabel);
      && |j| == |t|
      && forall i :: 0 <= i < |j| ==>
           && Row(j[i].id, i + 1) in t
           && j[i] == Describe(j[i].id, lecturers[j[i].id], typeLabel)
  {
    var s := SortByRank(t);
    SortedDenseIsIndexed(t);
    forall i | 0 <= i < |s| ensures s[i].lecturerId in lecturers {
      assert s[i] in t;
    }
    var j := Join(lecturers, s, typeLabel);
    forall i | 0 <= i < |j| ensures Row(j[i].id, i + 1) in t {
      assert s[i] == Row(j[i].id, i + 1);
    }
  }

  /** With both tables dense and together holding one row per lecturer (as
      in every valid state) the listing names every lecturer: first the
      full-time lecturers with the one at rank `i + 1` in position `i`,
      labelled "full-time", then the part-time ones likewise, labelled
      "part-time", each with its stored picture name. */
  lemma ListOrder(db: Db)
    requires Dense(db.fullTime) && Dense(db.partTime)
    requires DistinctIds(db.fullTime) && DistinctIds(db.partTime)
    requires Ids(db.fullTime) !! Ids(db.partTime)
    requires Ids(db.fullTime) + Ids(db.partTime) == db.lecturers.Keys
    ensures var l := ListLecturers(db);
      var ft := db.fullTime;
      var pt := db.partTime;
      && |l| == |ft| + |pt| == |db.lecturers|
      && (forall i :: 0 <= i < |ft| ==>
            && l[i].lecturerType == FullTimeLabel
            && Row(l[i].id, i + 1) in ft
            && l[i] == Describe(l[i].id, db.lecturers[l[i].id], FullTimeLabel))
      && (forall i :: |ft| <= i < |l| ==>
            && l[i].lecturerType == PartTimeLabel
            && Row(l[i].id, i - |ft| + 1) in pt
            && l[i] == Describe(l[i].id, db.lecturers[l[i].id], PartTimeLabel))
  {
    IdsSize(db.fullTime);
    IdsSize(db.partTime);
    assert |db.lecturers| == |db.lecturers.Keys|;
    ListFullTime(db);
    ListPartTime(db);
  }

  /** The listing is as long as the two dense tables together. */
  lemma ListLength(db: Db)
    requires Dense(db.fullTime) && Dense(db.partTime)
    requires Ids(db.fullTime) <= db.lecturers.Keys && Ids(db.partTime) <= db.lecturers.Keys
    ensures |ListLecturers(db)| == |db.fullTime| + |db.partTime|
  {
    JoinDenseTable(db.lecturers, db.fullTime, FullTimeLabel);
    JoinDenseTable(db.lecturers, db.partTime, PartTimeLabel);
  }

  /** Position `i` of the listing, read off the table it falls in. */
  lemma ListAt(db: Db, i: nat)
    requires Dense(db.fullTime) && Dense(db.partTime)
    requires Ids(db.fullTime) <= db.lecturers.Keys && Ids(db.partTime) <= db.lecturers.Keys
    requires i < |db.fullTime| + |db.partTime|
    ensures i < |ListLecturers(db)|
    ensures var l := ListLecturers(db);
      if i < |db.fullTime| then
        && Row(l[i].id, i + 1) in db.fullTime
        && l[i] == Describe(l[i].id, db.lecturers[l[i].id], FullTimeLabel)
      else
        && Row(l[i].id, i - |db.fullTime| + 1) in db.partTime
        && l[i] == Describe(l[i].id, db.lecturers[l[i].id], PartTimeLabel)
  {
    var ft := db.fullTime;
    JoinDenseTable(db.lecturers, ft, FullTimeLabel);
    JoinDenseTable(db.lecturers, db.partTime, PartTimeLabel);
    var jf := Join(db.lecturers, SortByRank(ft), FullTimeLabel);
    var jp := Join(db.lecturers, SortByRank(db.partTime), PartTimeLabel);
    if i < |ft| {
      assert ListLecturers(db)[i] == jf[i];
    } else {
      assert ListLecturers(db)[i] == jp[i - |ft|];
    }
  }

  /** The first half of the listing is the full-time table in rank order. */
  lemma ListFullTime(db: Db)
    requires Dense(db.fullTime) && Dense(db.partTime)
    requires Ids(db.fullTime) <= db.lecturers.Keys && Ids(db.partTime) <= db.lecturers.Keys
    ensures var l := ListLecturers(db);
      forall i :: 0 <= i < |db.fullTime| ==>
        && i < |l|
        && l[i].lecturerType == FullTimeLabel
        && Row(l[i].id, i + 1) in db.fullTime
        && l[i] == Describe(l[i].id, db.lecturers[l[i].id], FullTimeLabel)
  {
    ListLength(db);
    var l := ListLecturers(db);
    forall i | 0 <= i < |db.fullTime|
      ensures Row(l[i].id, i + 1) in db.fullTime
      ensures l[i] == Describe(l[i].id, db.lecturers[l[i].id], FullTimeLabel)
    {
      ListAt(db, i);
    }
  }

  /** The second half of the listing is the part-time table in rank order. */
  lemma ListPartTime(db: Db)
    requires Dense(db.fullTime) && Dense(db.partTime)
    requires Ids(db.fullTime) <= db.lecturers.Keys && Ids(db.partTime) <= db.lecturers.Keys
    ensures var l := ListLecturers(db);
      && |l| == |db.fullTime| + |db.partTime|
      && forall i :: |db.fullTime| <= i < |l| ==>
        && l[i].lecturerType == PartTimeLabel
        && Row(l[i].id, i - |db.fullTime| + 1) in db.partTime
        && l[i] == Describe(l[i].id, db.lecturers[l[i].id], PartTimeLabel)
  {
    ListLength(db);
    var l := ListLecturers(db);
    forall i | |db.fullTime| <= i < |l|
      ensures Row(l[i].id, i - |db.fullTime| + 1) in db.partTime
      ensures l[i] == Describe(l[i].id, db.lecturers[l[i].id], PartTimeLabel)
    {
      ListAt(db, i);
    }
  }

  // ---------------------------------------------------------------- scenario

  function Request(name: string, lecturerType: string): LecturerRequest {
    LecturerRequest(name, "", "", lecturerType, None, "")
  }

  function Staff(name: string): Lecturer {
    Lecturer(name, "", "", "", None)
  }

  /** The states the scenario passes through. */
  const AfterA: World := World(Db(map[1 := Staff("A")], [Row(1, 1)], []), 2, {})
  const AfterB: World := World(Db(map[1 := Staff("A"), 2 := Staff("B")], [Row(1, 1), Row(2, 2)], []), 3, {})
  const AfterDeleteA: World := World(Db(map[2 := Staff("B")], [Row(2, 1)], []), 3, {})
  const AfterC: World := World(Db(map[2 := Staff("B"), 3 := Staff("C")], [Row(2, 1), Row(3, 2)], []), 4, {})

  lemma CreateAStep()
    ensures Create(Initial, Request("A", "full-time"), None) == Outcome(Ok(Describe(1, Staff("A"), "full-time")), AfterA)
  {
    assert IsFullTime("full-time");
    assert Create(Initial, Request("A", "full-time"), None).world.db.lecturers == AfterA.db.lecturers;
  }

  lemma CreateBStep()
    ensures Create(AfterA, Request("B", "full-time"), None) == Outcome(Ok(Describe(2, Staff("B"), "full-time")), AfterB)
  {
    assert IsFullTime("full-time");
    assert NextRank(AfterA.db.fullTime) == 2;
    assert Create(AfterA, Request("B", "full-time"), None).world.db.lecturers == AfterB.db.lecturers;
  }

  lemma DeleteAStep()
    ensures Delete(AfterB, 1, None) == Outcome(Ok(()), AfterDeleteA)
  {
    assert RankOf(AfterB.db.fullTime, 1) == 1;
    assert DeleteRank(AfterB.db.fullTime, 1) == [Row(2, 2)];
    assert DeleteStatements(AfterB.db, 1).lecturers == AfterDeleteA.db.lecturers;
  }

  lemma CreateCStep()
    ensures Create(AfterDeleteA, Request("C", "Full-Time"), None) == Outcome(Ok(Describe(3, Staff("C"), "Full-Time")), AfterC)
  {
    assert IsFullTime("Full-Time") by {
      IsFullTimeIffFolds("Full-Time");
    }
    assert NextRank(AfterDeleteA.db.fullTime) == 2;
    assert Create(AfterDeleteA, Request("C", "Full-Time"), None).world.db.lecturers == AfterC.db.lecturers;
  }

  /** Starting empty: create A and B as full-time, delete A, create C with
      type "Full-Time"; the full-time table ends as B at rank 1 and C at
      rank 2, and the part-time table stays empty. */
  lemma FullTimeScenario()
    ensures var s1 := Create(Initial, Request("A", "full-time"), None).world;
      var s2 := Create(s1, Request("B", "full-time"), None).world;
      var s3 := Delete(s2, 1, None).world;
      var s4 := Create(s3, Request("C", "Full-Time"), None).world;
      && s1.db.fullTime == [Row(1, 1)]
      && s2.db.fullTime == [Row(1, 1), Row(2, 2)]
      && s3.db.fullTime == [Row(2, 1)]
      && s4.db.fullTime == [Row(2, 1), Row(3, 2)]
      && s4.db.partTime == []
  {
    CreateAStep();
    CreateBStep();
    DeleteAStep();
    CreateCStep();
  }
}
