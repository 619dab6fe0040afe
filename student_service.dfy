/** StudentService: student CRUD over the shared `user` table and a
    read-through cache of whole response envelopes (with the student count)
    under `students:page:{page}:limit:{limit}`. */
module StudentApi {
  import opened Wrappers
  import opened Records
  import opened RedisCache
  import opened PageKeys
  import opened Listings

  /** The request body of `create`. `groupId`, `paymentType` and `sum` feed
      the group-membership and payment calls that follow the insert. */
  datatype CreateStudentDto = CreateStudentDto(
    fullName: string,
    username: string,
    password: string,
    address: Option<string>,
    phoneNumber: Option<string>,
    gender: string,
    dateOfBirth: string,
    groupId: string,
    paymentType: string,
    sum: int)

  datatype UpdateStudentDto = UpdateStudentDto(fullName: Option<string>)

  const UsernameTaken: string := "A user with this username already exists"

  function StudentNotFound(id: string): string
  {
    "Student with id " + id + " not found."
  }

  /** The seven copied fields plus `role: 'STUDENT'`, with the hashed
      password and the id the database assigns. */
  function NewStudent(dto: CreateStudentDto, id: string, passwordHash: string): (t: User)
    ensures t.role == Student && t.userId == id && t.username == dto.username
    ensures t.fullName == dto.fullName && t.password == passwordHash
    ensures t.address == dto.address && t.phoneNumber == dto.phoneNumber
  {
    User(id, dto.fullName, dto.username, passwordHash, dto.address, dto.phoneNumber,
         dto.gender, dto.dateOfBirth, Student)
  }

  class StudentService {
    const redis: Redis
    const db: UserTable

    constructor (redis: Redis, db: UserTable)
      ensures this.redis == redis && this.db == db
    {
      this.redis := redis;
      this.db := db;
    }

    method Create(dto: CreateStudentDto, passwordHash: string, newId: string) returns (r: Result<Json, HttpError>)
      requires db.Valid()
      requires RowById(db.rows, newId).None?
      modifies redis, db
      ensures db.Valid()
      ensures RowByUsername(old(db.rows), dto.username).Some? ==>
        r == Failure(Conflict(UsernameTaken)) &&
        db.rows == old(db.rows) && redis.entries == old(redis.entries)
      ensures RowByUsername(old(db.rows), dto.username).None? ==>
        var s := NewStudent(dto, newId, passwordHash);
        r == Success(Envelope(CREATED, "created", Some(Record(s)), None)) &&
        db.rows == old(db.rows) + [s] &&
        redis.entries == Purge(old(redis.entries), PagePattern(Students))
      ensures Coherent(old(redis.entries), old(db.rows)) ==> Coherent(redis.entries, db.rows)
    {
      ghost var cache0, rows0 := redis.entries, db.rows;
      var current := db.FindUniqueByUsername(dto.username);
      if current.Some? {
        return Failure(Conflict(UsernameTaken));
      }
      var student := db.Create(NewStudent(dto, newId, passwordHash));
      Invalidate(redis, PagePattern(Students));
      if Coherent(cache0, rows0) {
        AppendKeepsOtherListing(rows0, student, Teacher);
        StudentWriteKeepsCoherent(cache0, rows0, db.rows);
      }
      r := Success(Envelope(CREATED, "created", Some(Record(student)), None));
    }

    /** A hit returns the cached envelope verbatim, without a query and
        without a write; a miss queries the page and the student count,
        caches the envelope and returns that same envelope. On a coherent
        cache both give the current envelope. */
    method FindAll(page: nat, limit: nat) returns (r: Json)
      requires page >= 1
      modifies redis, db`roundTrips
      ensures var key := PageKey(Students, page, limit);
        if key in old(redis.entries) then
          r == old(redis.entries)[key] &&
          redis.entries == old(redis.entries) && db.roundTrips == old(db.roundTrips)
        else
          r == StudentEnvelope(db.rows, page, limit) &&
          redis.entries == old(redis.entries)[key := r] &&
          db.roundTrips == old(db.roundTrips) + 2
      ensures Coherent(old(redis.entries), db.rows) ==>
        Coherent(redis.entries, db.rows) && r == StudentEnvelope(db.rows, page, limit)
    {
      var key := PageKey(Students, page, limit);
      var cached := redis.Get(key);
      if cached.Some? {
        if Coherent(redis.entries, db.rows) {
          StudentHitIsCurrent(redis.entries, db.rows, page, limit);
        }
        return cached.value;
      }
      var skip := (page - 1) * limit;
      assert skip == Skip(page, limit);
      var students := db.FindMany(Student, skip, limit);
      var studentCount := db.Count(Student);
      var envelope := Envelope(OK, "success", Some(Rows(students)), Some(studentCount));
      ghost var cache0 := redis.entries;
      redis.Set(key, envelope);
      if Coherent(cache0, db.rows) {
        StudentMissKeepsCoherent(cache0, db.rows, page, limit);
      }
      r := envelope;
    }

    /** Unlike TeacherService, the lookup does not filter on role: any user
        with the id is returned. */
    method FindOne(id: string) returns (r: Result<Json, HttpError>)
      modifies db`roundTrips
      ensures RowById(db.rows, id).Some? ==>
        r == Success(Envelope(OK, "success", Some(Record(RowById(db.rows, id).value)), None))
      ensures RowById(db.rows, id).None? ==>
        r == Failure(NotFound(StudentNotFound(id)))
      ensures db.Valid() ==> forall u :: u in db.rows && u.userId == id ==>
        r == Success(Envelope(OK, "success", Some(Record(u)), None))
    {
      if db.Valid() {
        forall u | u in db.rows && u.userId == id {
          RowByIdFinds(db.rows, u);
        }
      }
      var student := db.FindUniqueById(id);
      if student.None? {
        return Failure(NotFound(StudentNotFound(id)));
      }
      r := Success(Envelope(OK, "success", Some(Record(student.value)), None));
    }

    /** The existence check matches `user_id` only, whatever the role. */
    method Update(id: string, dto: UpdateStudentDto) returns (r: Result<Json, HttpError>)
      requires db.Valid()
      modifies redis, db
      ensures db.Valid()
      ensures RowById(old(db.rows), id).None? ==>
        r == Failure(NotFound(StudentNotFound(id))) &&
        db.rows == old(db.rows) && redis.entries == old(redis.entries)
      ensures RowById(old(db.rows), id).Some? ==>
        r == Success(Envelope(OK, "success", None, None)) &&
        db.rows == SetFullName(old(db.rows), id, dto.fullName) &&
        redis.entries == Purge(old(redis.entries), PagePattern(Students))
      ensures (Coherent(old(redis.entries), old(db.rows)) &&
               forall u :: u in old(db.rows) && u.userId == id ==> u.role != Teacher) ==>
        Coherent(redis.entries, db.rows)
    {
      ghost var cache0, rows0 := redis.entries, db.rows;
      var current := db.FindUniqueById(id);
      if current.None? {
        return Failure(NotFound(StudentNotFound(id)));
      }
      var _ := db.UpdateFullName(id, dto.fullName);
      Invalidate(redis, PagePattern(Students));
      if Coherent(cache0, rows0) && forall u :: u in rows0 && u.userId == id ==> u.role != Teacher {
        RenameKeepsOtherListing(rows0, id, dto.fullName, Teacher);
        StudentWriteKeepsCoherent(cache0, rows0, db.rows);
      }
      r := Success(Envelope(OK, "success", None, None));
    }

    /** Deletes first, then purges the student pages. */
    method Remove(id: string) returns (r: Result<Json, HttpError>)
      requires db.Valid()
      modifies redis, db
      ensures db.Valid()
      ensures RowById(old(db.rows), id).None? ==>
        r == Failure(NotFound(StudentNotFound(id))) &&
        db.rows == old(db.rows) && redis.entries == old(redis.entries)
      ensures RowById(old(db.rows), id).Some? ==>
        r == Success(Envelope(OK, "success", None, None)) &&
        db.rows == RemoveById(old(db.rows), id) && RowById(db.rows, id).None? &&
        |db.rows| == |old(db.rows)| - 1 &&
        redis.entries == Purge(old(redis.entries), PagePattern(Students))
      ensures (Coherent(old(redis.entries), old(db.rows)) &&
               forall u :: u in old(db.rows) && u.userId == id ==> u.role != Teacher) ==>
        Coherent(redis.entries, db.rows)
    {
      ghost var cache0, rows0 := redis.entries, db.rows;
      var current := db.FindUniqueById(id);
      if current.None? {
        return Failure(NotFound(StudentNotFound(id)));
      }
      var _ := db.Delete(id);
      Invalidate(redis, PagePattern(Students));
      if Coherent(cache0, rows0) && forall u :: u in rows0 && u.userId == id ==> u.role != Teacher {
        RemoveKeepsOtherListing(rows0, id, Teacher);
        StudentWriteKeepsCoherent(cache0, rows0, db.rows);
      }
      r := Success(Envelope(OK, "success", None, None));
    }
  }
}
