/** The cache key of one listing page, `${resource}:page:${page}:limit:${limit}`,
    and the pattern `${resource}:page:*` that invalidates all of them. */
module PageKeys {
  import opened Text

  const Teachers: string := "teachers"
  const Students: string := "students"

  /** The part of every page key of `resource` before the page number; the
      KEYS pattern is this followed by `*`. */
  function PagePattern(resource: string): string
  {
    resource + ":page:"
  }

  function PageKey(resource: string, page: nat, limit: nat): (k: string)
    ensures HasPrefix(PagePattern(resource), k)
  {
    PagePattern(resource) + NatToString(page) + ":limit:" + NatToString(limit)
  }

  /** What follows the pattern in a page key: the page number, a colon,
      then `limit:` and the limit. */
  lemma PageKeyTail(resource: string, page: nat, limit: nat)
    ensures PageKey(resource, page, limit)[|PagePattern(resource)|..]
         == NatToString(page) + [':'] + ("limit:" + NatToString(limit))
  {
    var pre, a, b := PagePattern(resource), NatToString(page), NatToString(limit);
    calc {
      PageKey(resource, page, limit);
      pre + a + ":limit:" + b;
      pre + (a + [':'] + ("limit:" + b));
    }
  }

  /** Distinct (page, limit) pairs get distinct keys, so one page's entry
      never answers another page's request. */
  lemma PageKeyInjective(resource: string, p1: nat, l1: nat, p2: nat, l2: nat)
    requires PageKey(resource, p1, l1) == PageKey(resource, p2, l2)
    ensures p1 == p2 && l1 == l2
  {
    var t1, t2 := "limit:" + NatToString(l1), "limit:" + NatToString(l2);
    PageKeyTail(resource, p1, l1);
    PageKeyTail(resource, p2, l2);
    SplitAtSeparator(NatToString(p1), t1, NatToString(p2), t2, ':');
    NatToStringInjective(p1, p2);
    assert NatToString(l1) == t1[6..];
    assert NatToString(l2) == t2[6..];
    NatToStringInjective(l1, l2);
  }

  /** The first character of a page key is the first character of its resource. */
  lemma PageKeyStart(resource: string, page: nat, limit: nat)
    requires |resource| > 0
    ensures PageKey(resource, page, limit)[0] == resource[0]
  {
  }

  /** Teacher and student keys never collide, and neither resource's
      pattern matches the other's keys. */
  lemma ResourcesDisjoint(p1: nat, l1: nat, p2: nat, l2: nat)
    ensures PageKey(Teachers, p1, l1) != PageKey(Students, p2, l2)
    ensures !HasPrefix(PagePattern(Students), PageKey(Teachers, p1, l1))
    ensures !HasPrefix(PagePattern(Teachers), PageKey(Students, p2, l2))
  {
    PageKeyStart(Teachers, p1, l1);
    PageKeyStart(Students, p2, l2);
    assert PagePattern(Students)[0] == 's' && PagePattern(Teachers)[0] == 't';
  }
}
