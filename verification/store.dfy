/**
 * The state the controller works on: the `lecturer` table, the two rank
 * tables, the database's id generator, and the names of the blobs in the
 * picture bucket.
 */
module Store {
  import opened Outcomes
  import opened RankTable
  import Text

  /** A row of the `lecturer` table; `picture` is the blob name, or NULL. */
  datatype Lecturer = Lecturer(
    name: string,
    designation: string,
    qualifications: string,
    linkedin: string,
    picture: Option<string>)

  /** Which rank table: `full_time_rank` or `part_time_rank`. */
  datatype Category = FullTime | PartTime

  /** The relational state: what a transaction commits or rolls back. */
  datatype Db = Db(lecturers: map<nat, Lecturer>, fullTime: Table, partTime: Table) {

    function TableOf(c: Category): Table {
      match c
      case FullTime => fullTime
      case PartTime => partTime
    }

    /** Replaces one rank table; nothing else changes. */
    function WithTable(c: Category, t: Table): (db: Db)
      ensures db.TableOf(c) == t
      ensures db.TableOf(Other(c)) == TableOf(Other(c))
      ensures db.lecturers == lecturers
    {
      match c
      case FullTime => this.(fullTime := t)
      case PartTime => this.(partTime := t)
    }
  }

  /** Everything the controller touches. `nextId` is the value the
      auto-increment key of `lecturer` hands out next; `blobs` are the names
      of the objects in the bucket, which no transaction covers. */
  datatype World = World(db: Db, nextId: nat, blobs: set<string>)

  /** The other category. */
  function Other(c: Category): Category {
    match c
    case FullTime => PartTime
    case PartTime => FullTime
  }

  /** The relational invariants the create/delete pair maintains:
      each rank table is dense (ranks exactly `1..N`), no lecturer appears
      twice in a table or in both tables, the ranked lecturers are exactly the
      lecturer rows, every id is below the next generated key, and a stored
      picture name is the one derived from the lecturer's id and name. */
  predicate Valid(w: World) {
    && (forall id :: id in w.db.lecturers ==> id < w.nextId)
    && Dense(w.db.fullTime)
    && Dense(w.db.partTime)
    && DistinctIds(w.db.fullTime)
    && DistinctIds(w.db.partTime)
    && Ids(w.db.fullTime) !! Ids(w.db.partTime)
    && Ids(w.db.fullTime) + Ids(w.db.partTime) == w.db.lecturers.Keys
    && (forall id :: id in w.db.lecturers && w.db.lecturers[id].picture.Some? ==>
          w.db.lecturers[id].picture.value == Text.PictureName(id, w.db.lecturers[id].name))
  }

  /** Every picture a lecturer row names exists in the bucket. */
  predicate PicturesStored(w: World) {
    forall id :: id in w.db.lecturers && w.db.lecturers[id].picture.Some? ==>
      w.db.lecturers[id].picture.value in w.blobs
  }

  /** A fresh deployment: empty tables, ids starting at 1, an empty bucket. */
  const Initial: World := World(Db(map[], [], []), 1, {})

  lemma InitialValid()
    ensures Valid(Initial) && PicturesStored(Initial)
  {
  }

  /** No two lecturers share a picture blob. */
  lemma PicturesExclusive(w: World, a: nat, b: nat)
    requires Valid(w)
    requires a in w.db.lecturers && b in w.db.lecturers && a != b
    requires w.db.lecturers[a].picture.Some? && w.db.lecturers[b].picture.Some?
    ensures w.db.lecturers[a].picture.value != w.db.lecturers[b].picture.value
  {
    if w.db.lecturers[a].picture.value == w.db.lecturers[b].picture.value {
      Text.PictureNameInjective(a, w.db.lecturers[a].name, b, w.db.lecturers[b].name);
    }
  }
}
