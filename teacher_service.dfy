/** TeacherService: teacher CRUD over the shared `user` table, a read-through
    cache of listing pages under `teachers:page:{page}:limit:{limit}`, and the
    clean-up of image files that no teacher image row refers to. */
module TeacherApi {
  import opened Wrappers
  import opened Records
  import opened RedisCache
  import opened PageKeys
  import opened Listings

  /** The request body of `create`. Its password is replaced by its bcrypt
      hash before the insert; the hash is an input of the model. */
  datatype CreateTeacherDto = CreateTeacherDto(
    fullName: string,
    username: string,
    password: string,
    gender: string,
    dateOfBirth: string)

  /** The request body of `update`: only `full_name` is used, and it may be absent. */
  datatype UpdateTeacherDto = UpdateTeacherDto(fullName: Option<string>)

  const UsernameTaken: string := "A user with this username already exists"

  function TeacherNotFound(id: string): string
  {
    "Teacher with id " + id + " not found."
  }

  /** `{ ...createTeacherDto, role: 'TEACHER' }` with the hashed password and
      the id the database assigns. */
  function NewTeacher(dto: CreateTeacherDto, id: string, passwordHash: string): (t: User)
    ensures t.role == Teacher && t.userId == id && t.username == dto.username
    ensures t.fullName == dto.fullName && t.password == passwordHash
    ensures t.address.None? && t.phoneNumber.None?
  {
    User(id, dto.fullName, dto.username, passwordHash, None, None, dto.gender, dto.dateOfBirth, Teacher)
  }

  class TeacherService {
    const redis: Redis
    const db: UserTable

    constructor (redis: Redis, db: UserTable)
      ensures this.redis == redis && this.db == db
    {
      this.redis := redis;
      this.db := db;
    }

    /** `newId` is the id the database generates for the new row, and
        `passwordHash` what bcrypt returns for `dto.password`. */
    method Create(dto: CreateTeacherDto, passwordHash: string, newId: string) returns (r: Result<Json, HttpError>)
      requires db.Valid()
      requires RowById(db.rows, newId).None?
      modifies redis, db
      ensures db.Valid()
      ensures RowByUsername(old(db.rows), dto.username).Some? ==>
        r == Failure(Conflict(UsernameTaken)) &&
        db.rows == old(db.rows) && redis.entries == old(redis.entries)
      ensures RowByUsername(old(db.rows), dto.username).None? ==>
        var t := NewTeacher(dto, newId, passwordHash);
        r == Success(Envelope(CREATED, "created", Some(Record(t)), None)) &&
        db.rows == old(db.rows) + [t] &&
        redis.entries == Purge(old(redis.entries), PagePattern(Teachers))
      ensures Coherent(old(redis.entries), old(db.rows)) ==> Coherent(redis.entries, db.rows)
    {
      ghost var cache0, rows0 := redis.entries, db.rows;
      var current := db.FindUniqueByUsername(dto.username);
      if current.Some? {
        return Failure(Conflict(UsernameTaken));
      }
      var teacher := db.Create(NewTeacher(dto, newId, passwordHash));
      Invalidate(redis, PagePattern(Teachers));
      if Coherent(cache0, rows0) {
        AppendKeepsOtherListing(rows0, teacher, Student);
        TeacherWriteKeepsCoherent(cache0, rows0, db.rows);
      }
      r := Success(Envelope(CREATED, "created", Some(Record(teacher)), None));
    }

    /** A hit replays what is cached, without a query and without a write; a
        miss queries the teacher page, caches it under the page key and
        returns it. On a coherent cache both give the current page. */
    method FindAll(page: nat, limit: nat) returns (r: Json)
      requires page >= 1
      modifies redis, db`roundTrips
      ensures var key := PageKey(Teachers, page, limit);
        if key in old(redis.entries) then
          r == Envelope(OK, "success", Some(old(redis.entries)[key]), None) &&
          redis.entries == old(redis.entries) && db.roundTrips == old(db.roundTrips)
        else
          r == Envelope(OK, "success", Some(TeacherPageData(db.rows, page, limit)), None) &&
          redis.entries == old(redis.entries)[key := TeacherPageData(db.rows, page, limit)] &&
          db.roundTrips == old(db.roundTrips) + 1
      ensures Coherent(old(redis.entries), db.rows) ==>
        Coherent(redis.entries, db.rows) &&
        r == Envelope(OK, "success", Some(TeacherPageData(db.rows, page, limit)), None)
    {
      var key := PageKey(Teachers, page, limit);
      var cached := redis.Get(key);
      if cached.Some? {
        if Coherent(redis.entries, db.rows) {
          TeacherHitIsCurrent(redis.entries, db.rows, page, limit);
        }
        return Envelope(OK, "success", Some(cached.value), None);
      }
      var skip := (page - 1) * limit;
      assert skip == Skip(page, limit);
      var teachers := db.FindMany(Teacher, skip, limit);
      ghost var cache0 := redis.entries;
      redis.Set(key, Rows(teachers));
      if Coherent(cache0, db.rows) {
        TeacherMissKeepsCoherent(cache0, db.rows, page, limit);
      }
      r := Envelope(OK, "success", Some(Rows(teachers)), None);
    }

    /** Found only when the id exists with role TEACHER. */
    method FindOne(id: string) returns (r: Result<Json, HttpError>)
      modifies db`roundTrips
      ensures RowByIdAndRole(db.rows, id, Teacher).Some? ==>
        r == Success(Envelope(OK, "success", Some(Record(RowByIdAndRole(db.rows, id, Teacher).value)), None))
      ensures RowByIdAndRole(db.rows, id, Teacher).None? ==>
        r == Failure(NotFound(TeacherNotFound(id)))
      ensures db.Valid() ==> forall u :: u in db.rows && u.userId == id ==>
        r == (if u.role == Teacher then Success(Envelope(OK, "success", Some(Record(u)), None))
              else Failure(NotFound(TeacherNotFound(id))))
    {
      if db.Valid() {
        forall u | u in db.rows && u.userId == id {
          RowByIdAndRoleFinds(db.rows, u, Teacher);
        }
      }
      var teacher := db.FindUniqueByIdAndRole(id, Teacher);
      if teacher.None? {
        return Failure(NotFound(TeacherNotFound(id)));
      }
      r := Success(Envelope(OK, "success", Some(Record(teacher.value)), None));
    }

    /** The existence check matches `user_id` only, whatever the role. */
    method Update(id: string, dto: UpdateTeacherDto) returns (r: Result<Json, HttpError>)
      requires db.Valid()
      modifies redis, db
      ensures db.Valid()
      ensures RowById(old(db.rows), id).None? ==>
        r == Failure(NotFound(TeacherNotFound(id))) &&
        db.rows == old(db.rows) && redis.entries == old(redis.entries)
      ensures RowById(old(db.rows), id).Some? ==>
        r == Success(Envelope(OK, "success", None, None)) &&
        db.rows == SetFullName(old(db.rows), id, dto.fullName) &&
        redis.entries == Purge(old(redis.entries), PagePattern(Teachers))
      ensures (Coherent(old(redis.entries), old(db.rows)) &&
               forall u :: u in old(db.rows) && u.userId == id ==> u.role != Student) ==>
        Coherent(redis.entries, db.rows)
    {
      ghost var cache0, rows0 := redis.entries, db.rows;
      var current := db.FindUniqueById(id);
      if current.None? {
        return Failure(NotFound(TeacherNotFound(id)));
      }
      var _ := db.UpdateFullName(id, dto.fullName);
      Invalidate(redis, PagePattern(Teachers));
      if Coherent(cache0, rows0) && forall u :: u in rows0 && u.userId == id ==> u.role != Student {
        RenameKeepsOtherListing(rows0, id, dto.fullName, Student);
        TeacherWriteKeepsCoherent(cache0, rows0, db.rows);
      }
      r := Success(Envelope(OK, "success", None, None));
    }

    /** Update with the existence check the NotFound message describes: on
        `user_id` and role TEACHER, as FindOne does. A student can then no
        longer be renamed through this service, and every coherent cache
        stays coherent, with no condition on the target. */
    method UpdateRoleChecked(id: string, dto: UpdateTeacherDto) returns (r: Result<Json, HttpError>)
      requires db.Valid()
      modifies redis, db
      ensures db.Valid()
      ensures RowByIdAndRole(old(db.rows), id, Teacher).None? ==>
        r == Failure(NotFound(TeacherNotFound(id))) &&
        db.rows == old(db.rows) && redis.entries == old(redis.entries)
      ensures RowByIdAndRole(old(db.rows), id, Teacher).Some? ==>
        r == Success(Envelope(OK, "success", None, None)) &&
        db.rows == SetFullName(old(db.rows), id, dto.fullName) &&
        redis.entries == Purge(old(redis.entries), PagePattern(Teachers))
      ensures Coherent(old(redis.entries), old(db.rows)) ==> Coherent(redis.entries, db.rows)
    {
      ghost var cache0, rows0 := redis.entries, db.rows;
      var current := db.FindUniqueByIdAndRole(id, Teacher);
      if current.None? {
        return Failure(NotFound(TeacherNotFound(id)));
      }
      forall u | u in rows0 && u.userId == id
        ensures u.role != Student
      {
        RowByIdAndRoleFinds(rows0, u, Teacher);
      }
      var _ := db.UpdateFullName(id, dto.fullName);
      Invalidate(redis, PagePattern(Teachers));
      if Coherent(cache0, rows0) {
        RenameKeepsOtherListing(rows0, id, dto.fullName, Student);
        TeacherWriteKeepsCoherent(cache0, rows0, db.rows);
      }
      r := Success(Envelope(OK, "success", None, None));
    }

    /** Purges the teacher pages first, then deletes; like Update, the
        existence check matches `user_id` only. */
    method Remove(id: string) returns (r: Result<Json, HttpError>)
      requires db.Valid()
      modifies redis, db
      ensures db.Valid()
      ensures RowById(old(db.rows), id).None? ==>
        r == Failure(NotFound(TeacherNotFound(id))) &&
        db.rows == old(db.rows) && redis.entries == old(redis.entries)
      ensures RowById(old(db.rows), id).Some? ==>
        r == Success(Envelope(OK, "success", None, None)) &&
        db.rows == RemoveById(old(db.rows), id) && RowById(db.rows, id).None? &&
        |db.rows| == |old(db.rows)| - 1 &&
        redis.entries == Purge(old(redis.entries), PagePattern(Teachers))
      ensures (Coherent(old(redis.entries), old(db.rows)) &&
               forall u :: u in old(db.rows) && u.userId == id ==> u.role != Student) ==>
        Coherent(redis.entries, db.rows)
    {
      ghost var cache0, rows0 := redis.entries, db.rows;
      var current := db.FindUniqueById(id);
      if current.None? {
        return Failure(NotFound(TeacherNotFound(id)));
      }
      Invalidate(redis, PagePattern(Teachers));
      var _ := db.Delete(id);
      if Coherent(cache0, rows0) && forall u :: u in rows0 && u.userId == id ==> u.role != Student {
        RemoveKeepsOtherListing(rows0, id, Student);
        TeacherWriteKeepsCoherent(cache0, rows0, db.rows);
      }
      r := Success(Envelope(OK, "success", None, None));
    }
    /** Remove with the existence check the NotFound message describes: on
        `user_id` and role TEACHER. A student can then no longer be deleted
        through this service, and every coherent cache stays coherent, with
        no condition on the target. */
    method RemoveRoleChecked(id: string) returns (r: Result<Json, HttpError>)
      requires db.Valid()
      modifies redis, db
      ensures db.Valid()
      ensures RowByIdAndRole(old(db.rows), id, Teacher).None? ==>
        r == Failure(NotFound(TeacherNotFound(id))) &&
        db.rows == old(db.rows) && redis.entries == old(redis.entries)
      ensures RowByIdAndRole(old(db.rows), id, Teacher).Some? ==>
        r == Success(Envelope(OK, "success", None, None)) &&
        db.rows == RemoveById(old(db.rows), id) && |db.rows| == |old(db.rows)| - 1 &&
        redis.entries == Purge(old(redis.entries), PagePattern(Teachers))
      ensures Coherent(old(redis.entries), old(db.rows)) ==> Coherent(redis.entries, db.rows)
    {
      ghost var cache0, rows0 := redis.entries, db.rows;
      var current := db.FindUniqueByIdAndRole(id, Teacher);
      if current.None? {
        return Failure(NotFound(TeacherNotFound(id)));
      }
      forall u | u in rows0 && u.userId == id
        ensures u.role != Student
      {
        RowByIdAndRoleFinds(rows0, u, Teacher);
      }
      Invalidate(redis, PagePattern(Teachers));
      var _ := db.Delete(id);
      if Coherent(cache0, rows0) {
        RemoveKeepsOtherListing(rows0, id, Student);
        TeacherWriteKeepsCoherent(cache0, rows0, db.rows);
      }
      r := Success(Envelope(OK, "success", None, None));
    }
  }

  /** The image URL `imageUpload` returns for an uploaded path. */
  function ImageUrl(apiUrl: string, path: string): (url: string)
    ensures OccursAt(url, apiUrl + "/", 0)
    ensures url[|apiUrl| + 1..] == path
  {
    apiUrl + "/" + path
  }

  /** `pat` occurs in `s` at position `j`. */
  predicate OccursAt(s: string, pat: string, j: nat)
  {
    j + |pat| <= |s| && s[j..j + |pat|] == pat
  }

  /** The index of the first occurrence of `pat` in `s` at or after `from`. */
  function IndexOf(s: string, pat: string, from: nat): (r: Option<nat>)
    requires from <= |s|
    ensures r.Some? ==> from <= r.value && OccursAt(s, pat, r.value)
    ensures r.Some? ==> forall j: nat :: from <= j < r.value ==> !OccursAt(s, pat, j)
    ensures r.None? ==> forall j: nat :: from <= j ==> !OccursAt(s, pat, j)
    decreases |s| - from
  {
    if from + |pat| > |s| then None
    else if s[from..from + |pat|] == pat then Some(from)
    else IndexOf(s, pat, from + 1)
  }

  /** `s.replace(pat, '')`: the first occurrence of `pat` is cut out. */
  function ReplaceFirst(s: string, pat: string): (r: string)
    ensures (forall j: nat :: !OccursAt(s, pat, j)) ==> r == s
    ensures OccursAt(s, pat, 0) ==> r == s[|pat|..]
    ensures r == s || |r| + |pat| == |s|
  {
    match IndexOf(s, pat, 0)
    case Some(i) => s[..i] + s[i + |pat|..]
    case None => s
  }

  /** `replace` cuts the first occurrence of the pattern and nothing else. */
  lemma ReplaceFirstCutsFirstOccurrence(s: string, pat: string, i: nat)
    requires OccursAt(s, pat, i) && forall j: nat :: j < i ==> !OccursAt(s, pat, j)
    ensures ReplaceFirst(s, pat) == s[..i] + s[i + |pat|..]
  {
    var r := IndexOf(s, pat, 0);
    assert r.Some?;
    assert r.value == i;
  }

  /** Stripping `API_URL + "/"` undoes ImageUrl: the clean-up recovers the
      stored path of every image `imageUpload` produced. */
  lemma StripImageUrl(apiUrl: string, path: string)
    ensures ReplaceFirst(ImageUrl(apiUrl, path), apiUrl + "/") == path
  {
    var s := ImageUrl(apiUrl, path);
    var pat := apiUrl + "/";
    assert s[0..|pat|] == pat;
    assert OccursAt(s, pat, 0);
  }

  /** `teacherImagesUrlArr`: every image URL with the API prefix cut out. */
  function TrackedPaths(apiUrl: string, urls: seq<string>): (paths: seq<string>)
    ensures |paths| == |urls|
    ensures forall i :: 0 <= i < |urls| ==> paths[i] == ReplaceFirst(urls[i], apiUrl + "/")
  {
    if urls == [] then [] else [ReplaceFirst(urls[0], apiUrl + "/")] + TrackedPaths(apiUrl, urls[1..])
  }

  /** The listed files that no tracked path names. */
  function Untracked(listing: seq<string>, tracked: seq<string>): (r: set<string>)
    ensures forall f :: f in r <==> f in listing && f !in tracked
  {
    set f | f in listing && f !in tracked
  }

  /** The `teacher` upload folder of the file service. */
  class FileStore {
    var files: set<string>

    constructor (files: set<string>)
      ensures this.files == files
    {
      this.files := files;
    }

    method DeleteFile(path: string)
      modifies this
      ensures files == old(files) - {path}
    {
      files := files - {path};
    }
  }

  /** `cleanUpUntrackedImagesTeacehr`: `imageUrls` are the URLs of the image
      rows owned by teachers and `listing` what `getAllFiles('teacher')`
      returned. Every listed file that no image row refers to is deleted,
      and nothing else is. */
  method CleanUpUntrackedImages(apiUrl: string, imageUrls: seq<string>, listing: seq<string>, store: FileStore)
    returns (r: Json)
    modifies store
    ensures store.files == old(store.files) - Untracked(listing, TrackedPaths(apiUrl, imageUrls))
    ensures (forall f :: f in old(store.files) ==> f in listing) ==>
      forall f :: f in store.files ==> f in TrackedPaths(apiUrl, imageUrls)
    ensures r == Envelope(OK, "success", None, None)
  {
    var tracked := TrackedPaths(apiUrl, imageUrls);
    var i := 0;
    while i < |listing|
      invariant 0 <= i <= |listing|
      invariant store.files == old(store.files) - Untracked(listing[..i], tracked)
    {
      assert listing[..i + 1] == listing[..i] + [listing[i]];
      if listing[i] !in tracked {
        store.DeleteFile(listing[i]);
      }
      i := i + 1;
    }
    assert listing[..i] == listing;
    r := Envelope(OK, "success", None, None);
  }
}
