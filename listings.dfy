/** What each service's `findAll` assembles on a miss, and the invariant the
    read-through cache is meant to keep: every cached page of a resource is
    exactly what a fresh query of the current table would produce. */
module Listings {
  import opened Wrappers
  import opened Text
  import opened Records
  import opened RedisCache
  import opened PageKeys

  /** `skip = (page - 1) * limit`: the rows of the pages before `page`, so
      that page `page` ends at row `page * limit`. */
  function Skip(page: nat, limit: nat): (r: nat)
    requires page >= 1
    ensures r + limit == page * limit
    ensures page == 1 ==> r == 0
  {
    (page - 1) * limit
  }

  /** The array TeacherService stores under a page key: the teachers at
      positions `skip .. skip + limit` of the teacher listing. */
  function TeacherPageData(rows: seq<User>, page: nat, limit: nat): (r: Json)
    requires page >= 1
    ensures r.Rows? && |r.users| <= limit
    ensures var n := |WithRole(rows, Teacher)|;
      |r.users| == if Skip(page, limit) >= n then 0 else Min(limit, n - Skip(page, limit))
    ensures forall i :: 0 <= i < |r.users| ==>
      Skip(page, limit) + i < |WithRole(rows, Teacher)| && r.users[i] == WithRole(rows, Teacher)[Skip(page, limit) + i]
    ensures forall u :: u in r.users ==> u in rows && u.role == Teacher
  {
    Rows(Page(rows, Teacher, Skip(page, limit), limit))
  }

  /** The envelope StudentService stores under a page key and returns: a
      success carrying the students at positions `skip .. skip + limit` of
      the student listing, and the number of students in the whole table. */
  function StudentEnvelope(rows: seq<User>, page: nat, limit: nat): (r: Json)
    requires page >= 1
    ensures r.Envelope? && r.status == OK && r.data.Some? && r.data.value.Rows?
    ensures |r.data.value.users| <= limit
    ensures var n := |WithRole(rows, Student)|;
      |r.data.value.users| == if Skip(page, limit) >= n then 0 else Min(limit, n - Skip(page, limit))
    ensures forall i :: 0 <= i < |r.data.value.users| ==>
      Skip(page, limit) + i < |WithRole(rows, Student)| &&
      r.data.value.users[i] == WithRole(rows, Student)[Skip(page, limit) + i]
    ensures forall u :: u in r.data.value.users ==> u in rows && u.role == Student
    ensures r.studentCount == Some(|WithRole(rows, Student)|)
  {
    Envelope(OK, "success", Some(Rows(Page(rows, Student, Skip(page, limit), limit))),
             Some(|WithRole(rows, Student)|))
  }

  /** The envelope's count agrees with its page, whatever the page and
      limit: a page holds `min(limit, count - skip)` students, none once
      `skip` reaches the count, so every row of a page lies within the count. */
  lemma ListingContents(rows: seq<User>, page: nat, limit: nat)
    requires page >= 1
    ensures var e := StudentEnvelope(rows, page, limit);
      var count := e.studentCount.value;
      |e.data.value.users| == (if Skip(page, limit) >= count then 0 else Min(limit, count - Skip(page, limit)))
    ensures var e := StudentEnvelope(rows, page, limit);
      |e.data.value.users| > 0 ==> Skip(page, limit) + |e.data.value.users| <= e.studentCount.value
  {
    var e := StudentEnvelope(rows, page, limit);
    assert e.data.value.users == Window(WithRole(rows, Student), Skip(page, limit), limit);
  }

  /** Every cached teacher page reflects the current rows. */
  ghost predicate TeacherPagesFresh(cache: map<string, Json>, rows: seq<User>)
  {
    forall page: nat, limit: nat :: page >= 1 && PageKey(Teachers, page, limit) in cache ==>
      cache[PageKey(Teachers, page, limit)] == TeacherPageData(rows, page, limit)
  }

  /** Every cached student envelope reflects the current rows. */
  ghost predicate StudentPagesFresh(cache: map<string, Json>, rows: seq<User>)
  {
    forall page: nat, limit: nat :: page >= 1 && PageKey(Students, page, limit) in cache ==>
      cache[PageKey(Students, page, limit)] == StudentEnvelope(rows, page, limit)
  }

  /** The cache invariant: every cached page of either resource is the
      current one. A key space holding no page key at all is coherent with
      any table. */
  ghost predicate Coherent(cache: map<string, Json>, rows: seq<User>)
    ensures (forall k :: k in cache ==> !HasPrefix(PagePattern(Teachers), k) && !HasPrefix(PagePattern(Students), k)) ==>
      Coherent(cache, rows)
  {
    TeacherPagesFresh(cache, rows) && StudentPagesFresh(cache, rows)
  }

  /** An empty cache is coherent with any table. */
  lemma EmptyCacheCoherent(rows: seq<User>)
    ensures Coherent(map[], rows)
  {
  }

  /** On a coherent cache a hit replays the current teacher page. */
  lemma TeacherHitIsCurrent(cache: map<string, Json>, rows: seq<User>, page: nat, limit: nat)
    requires page >= 1
    requires Coherent(cache, rows) && PageKey(Teachers, page, limit) in cache
    ensures cache[PageKey(Teachers, page, limit)] == TeacherPageData(rows, page, limit)
  {
  }

  /** On a coherent cache a hit replays the current student envelope. */
  lemma StudentHitIsCurrent(cache: map<string, Json>, rows: seq<User>, page: nat, limit: nat)
    requires page >= 1
    requires Coherent(cache, rows) && PageKey(Students, page, limit) in cache
    ensures cache[PageKey(Students, page, limit)] == StudentEnvelope(rows, page, limit)
  {
  }

  /** A miss of TeacherService.findAll stores a fresh page and keeps the cache coherent. */
  lemma TeacherMissKeepsCoherent(cache: map<string, Json>, rows: seq<User>, page: nat, limit: nat)
    requires page >= 1
    requires Coherent(cache, rows)
    ensures Coherent(cache[PageKey(Teachers, page, limit) := TeacherPageData(rows, page, limit)], rows)
  {
    var c := cache[PageKey(Teachers, page, limit) := TeacherPageData(rows, page, limit)];
    forall p: nat, l: nat | p >= 1 && PageKey(Teachers, p, l) in c
      ensures c[PageKey(Teachers, p, l)] == TeacherPageData(rows, p, l)
    {
      if PageKey(Teachers, p, l) == PageKey(Teachers, page, limit) {
        PageKeyInjective(Teachers, p, l, page, limit);
      }
    }
    forall p: nat, l: nat | p >= 1 && PageKey(Students, p, l) in c
      ensures c[PageKey(Students, p, l)] == StudentEnvelope(rows, p, l)
    {
      ResourcesDisjoint(page, limit, p, l);
    }
  }

  /** A miss of StudentService.findAll stores a fresh envelope and keeps the cache coherent. */
  lemma StudentMissKeepsCoherent(cache: map<string, Json>, rows: seq<User>, page: nat, limit: nat)
    requires page >= 1
    requires Coherent(cache, rows)
    ensures Coherent(cache[PageKey(Students, page, limit) := StudentEnvelope(rows, page, limit)], rows)
  {
    var c := cache[PageKey(Students, page, limit) := StudentEnvelope(rows, page, limit)];
    forall p: nat, l: nat | p >= 1 && PageKey(Students, p, l) in c
      ensures c[PageKey(Students, p, l)] == StudentEnvelope(rows, p, l)
    {
      if PageKey(Students, p, l) == PageKey(Students, page, limit) {
        PageKeyInjective(Students, p, l, page, limit);
      }
    }
    forall p: nat, l: nat | p >= 1 && PageKey(Teachers, p, l) in c
      ensures c[PageKey(Teachers, p, l)] == TeacherPageData(rows, p, l)
    {
      ResourcesDisjoint(p, l, page, limit);
    }
  }

  /** After a purge of `teachers:page:*` no teacher page is cached, so the
      next `findAll` of any (page, limit) is a miss; student pages stay. */
  lemma TeacherPurgeEvictsAllTeacherPages(cache: map<string, Json>, page: nat, limit: nat)
    ensures PageKey(Teachers, page, limit) !in Purge(cache, PagePattern(Teachers))
    ensures PageKey(Students, page, limit) in Purge(cache, PagePattern(Teachers)) <==> PageKey(Students, page, limit) in cache
  {
    ResourcesDisjoint(page, limit, page, limit);
  }

  /** After a purge of `students:page:*` no student page is cached; teacher pages stay. */
  lemma StudentPurgeEvictsAllStudentPages(cache: map<string, Json>, page: nat, limit: nat)
    ensures PageKey(Students, page, limit) !in Purge(cache, PagePattern(Students))
    ensures PageKey(Teachers, page, limit) in Purge(cache, PagePattern(Students)) <==> PageKey(Teachers, page, limit) in cache
  {
    ResourcesDisjoint(page, limit, page, limit);
  }

  /** A TeacherService write followed by its purge keeps the cache coherent
      as long as the write left the student listing as it was. */
  lemma TeacherWriteKeepsCoherent(cache: map<string, Json>, rows: seq<User>, rows': seq<User>)
    requires Coherent(cache, rows)
    requires WithRole(rows', Student) == WithRole(rows, Student)
    ensures Coherent(Purge(cache, PagePattern(Teachers)), rows')
  {
    var c := Purge(cache, PagePattern(Teachers));
    forall p: nat, l: nat | p >= 1 && PageKey(Teachers, p, l) in c
      ensures false
    {
      TeacherPurgeEvictsAllTeacherPages(cache, p, l);
    }
    forall p: nat, l: nat | p >= 1 && PageKey(Students, p, l) in c
      ensures c[PageKey(Students, p, l)] == StudentEnvelope(rows', p, l)
    {
      ResourcesDisjoint(p, l, p, l);
    }
  }

  /** A StudentService write followed by its purge keeps the cache coherent
      as long as the write left the teacher listing as it was. */
  lemma StudentWriteKeepsCoherent(cache: map<string, Json>, rows: seq<User>, rows': seq<User>)
    requires Coherent(cache, rows)
    requires WithRole(rows', Teacher) == WithRole(rows, Teacher)
    ensures Coherent(Purge(cache, PagePattern(Students)), rows')
  {
    var c := Purge(cache, PagePattern(Students));
    forall p: nat, l: nat | p >= 1 && PageKey(Students, p, l) in c
      ensures false
    {
      StudentPurgeEvictsAllStudentPages(cache, p, l);
    }
    forall p: nat, l: nat | p >= 1 && PageKey(Teachers, p, l) in c
      ensures c[PageKey(Teachers, p, l)] == TeacherPageData(rows', p, l)
    {
      ResourcesDisjoint(p, l, p, l);
    }
  }

  /** The existence check of `update` matches on `user_id` alone, so a
      student can be renamed through TeacherService; its purge spares the
      student pages, and a cached student page then shows the old name. */
  lemma CrossRoleRenameLeavesStalePage(s: User, newName: string)
    requires s.role == Student && newName != s.fullName
    ensures var rows := [s];
      var cache := map[PageKey(Students, 1, 1) := StudentEnvelope(rows, 1, 1)];
      Coherent(cache, rows) &&
      !Coherent(Purge(cache, PagePattern(Teachers)), SetFullName(rows, s.userId, Some(newName)))
  {
    var rows := [s];
    var key := PageKey(Students, 1, 1);
    var cache := map[key := StudentEnvelope(rows, 1, 1)];
    forall p: nat, l: nat | p >= 1 && PageKey(Teachers, p, l) in cache ensures false {
      ResourcesDisjoint(p, l, 1, 1);
    }
    forall p: nat, l: nat | p >= 1 && PageKey(Students, p, l) in cache
      ensures cache[PageKey(Students, p, l)] == StudentEnvelope(rows, p, l)
    {
      PageKeyInjective(Students, p, l, 1, 1);
    }
    var rows' := SetFullName(rows, s.userId, Some(newName));
    var s' := rows'[0];
    assert WithRole(rows, Student) == [s];
    assert WithRole(rows', Student) == [s'];
    assert StudentEnvelope(rows, 1, 1).data.value.users == [s];
    assert StudentEnvelope(rows', 1, 1).data.value.users == [s'];
    TeacherPurgeEvictsAllTeacherPages(cache, 1, 1);
    ResourcesDisjoint(1, 1, 1, 1);
    PurgeSparesOtherPrefix(cache, PagePattern(Teachers), PagePattern(Students), key);
    assert Purge(cache, PagePattern(Teachers))[key] != StudentEnvelope(rows', 1, 1);
  }

  /** Deleting a student through TeacherService (whose existence check
      ignores the role) leaves the cached student page listing the deleted
      row, with a `studentCount` of 1 for a table that has no student left. */
  lemma CrossRoleRemoveLeavesStalePage(s: User)
    requires s.role == Student
    ensures var rows := [s];
      var cache := map[PageKey(Students, 1, 1) := StudentEnvelope(rows, 1, 1)];
      Coherent(cache, rows) &&
      !Coherent(Purge(cache, PagePattern(Teachers)), RemoveById(rows, s.userId))
  {
    var rows := [s];
    var key := PageKey(Students, 1, 1);
    var cache := map[key := StudentEnvelope(rows, 1, 1)];
    forall p: nat, l: nat | p >= 1 && PageKey(Teachers, p, l) in cache ensures false {
      ResourcesDisjoint(p, l, 1, 1);
    }
    forall p: nat, l: nat | p >= 1 && PageKey(Students, p, l) in cache
      ensures cache[PageKey(Students, p, l)] == StudentEnvelope(rows, p, l)
    {
      PageKeyInjective(Students, p, l, 1, 1);
    }
    assert RemoveById(rows, s.userId) == [];
    assert WithRole(rows, Student) == [s];
    assert StudentEnvelope(rows, 1, 1).studentCount == Some(1);
    assert StudentEnvelope([], 1, 1).studentCount == Some(0);
    ResourcesDisjoint(1, 1, 1, 1);
    PurgeSparesOtherPrefix(cache, PagePattern(Teachers), PagePattern(Students), key);
    assert Purge(cache, PagePattern(Teachers))[key] != StudentEnvelope([], 1, 1);
  }

  /** The same through StudentService: a teacher renamed there leaves a
      cached teacher page showing the old name. */
  lemma CrossRoleRenameLeavesStaleTeacherPage(t: User, newName: string)
    requires t.role == Teacher && newName != t.fullName
    ensures var rows := [t];
      var cache := map[PageKey(Teachers, 1, 1) := TeacherPageData(rows, 1, 1)];
      Coherent(cache, rows) &&
      !Coherent(Purge(cache, PagePattern(Students)), SetFullName(rows, t.userId, Some(newName)))
  {
    var rows := [t];
    var key := PageKey(Teachers, 1, 1);
    var cache := map[key := TeacherPageData(rows, 1, 1)];
    forall p: nat, l: nat | p >= 1 && PageKey(Students, p, l) in cache ensures false {
      ResourcesDisjoint(1, 1, p, l);
    }
    forall p: nat, l: nat | p >= 1 && PageKey(Teachers, p, l) in cache
      ensures cache[PageKey(Teachers, p, l)] == TeacherPageData(rows, p, l)
    {
      PageKeyInjective(Teachers, p, l, 1, 1);
    }
    var rows' := SetFullName(rows, t.userId, Some(newName));
    var t' := rows'[0];
    assert WithRole(rows, Teacher) == [t];
    assert WithRole(rows', Teacher) == [t'];
    assert TeacherPageData(rows, 1, 1).users == [t];
    assert TeacherPageData(rows', 1, 1).users == [t'];
    ResourcesDisjoint(1, 1, 1, 1);
    PurgeSparesOtherPrefix(cache, PagePattern(Students), PagePattern(Teachers), key);
    assert Purge(cache, PagePattern(Students))[key] != TeacherPageData(rows', 1, 1);
  }
}
