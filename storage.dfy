/**
 * The in-memory store of the server: users and conversions kept in two
 * maps keyed by numeric ids that two independent counters hand out, from
 * 1 upwards.  Records are only ever added.  The queries read the maps in
 * insertion order, which for these keys is ascending id order: lookup by
 * id, first user with a username, the most recent conversions (newest
 * first, stable for equal timestamps, cut at a limit as `slice(0, limit)`
 * does) and a case-insensitive substring search on the original name.
 */
module Storage {
  import opened Wrappers
  import opened Text

  /** The fields of a new user: its username and whatever else the caller supplies. */
  datatype NewUser = NewUser(username: string, attributes: map<string, string>)

  /** A stored user: the new user's fields spread, plus the id the store assigned. */
  datatype User = User(id: int, username: string, attributes: map<string, string>)

  /** The fields of a new conversion record. */
  datatype NewConversion = NewConversion(originalName: string, sourceLanguage: string, koreanName: string,
                                         romanization: string, breakdown: string)

  /** A stored conversion: the new record's fields, its id and its creation time in milliseconds. */
  datatype Conversion = Conversion(id: int, originalName: string, sourceLanguage: string, koreanName: string,
                                   romanization: string, breakdown: string, createdAt: int)

  /** `getRecentConversions`' default limit. */
  const DefaultLimit := 10

  // ---------------------------------------------------------------------
  // The queries, on lists in insertion order
  // ---------------------------------------------------------------------

  /** `users.find(user => user.username === username)`. */
  function FirstWithUsername(users: seq<User>, username: string): (r: Option<User>)
    ensures r.Some? ==> exists j :: 0 <= j < |users| && users[j] == r.value && r.value.username == username &&
                          forall i :: 0 <= i < j ==> users[i].username != username
    ensures r.None? <==> forall j :: 0 <= j < |users| ==> users[j].username != username
  {
    if users == [] then None
    else if users[0].username == username then Some(users[0])
    else
      var r := FirstWithUsername(users[1..], username);
      assert r.Some? ==> exists j :: 0 <= j < |users| && users[j] == r.value && r.value.username == username &&
                          forall i :: 0 <= i < j ==> users[i].username != username by {
        if r.Some? {
          var j :| 0 <= j < |users[1..]| && users[1..][j] == r.value && r.value.username == username &&
                   forall i :: 0 <= i < j ==> users[1..][i].username != username;
          assert users[j + 1] == r.value;
          assert forall i :: 1 <= i < j + 1 ==> users[i] == users[1..][i - 1];
        }
      }
      assert r.None? ==> forall j :: 1 <= j < |users| ==> users[j] == users[1..][j - 1];
      r
  }

  /** `a` comes before `b` in the recency order: newer, or as new and inserted earlier. */
  predicate Precedes(a: Conversion, b: Conversion) {
    a.createdAt > b.createdAt || (a.createdAt == b.createdAt && a.id < b.id)
  }

  /** Sorted newest first, ties in ascending id order. */
  predicate ByRecency(s: seq<Conversion>) {
    forall i, j :: 0 <= i < j < |s| ==> Precedes(s[i], s[j])
  }

  /** Ids strictly increase along the list, as they do in insertion order. */
  predicate IdsAscending(s: seq<Conversion>) {
    forall i, j :: 0 <= i < j < |s| ==> s[i].id < s[j].id
  }

  /** Places `x` after every element at least as new as it: one step of a stable sort, newest first. */
  function InsertByTime(sorted: seq<Conversion>, x: Conversion): (r: seq<Conversion>)
    ensures |r| == |sorted| + 1
    ensures multiset(r) == multiset(sorted) + multiset{x}
  {
    if sorted == [] then [x]
    else if sorted[0].createdAt < x.createdAt then [x] + sorted
    else
      assert sorted == [sorted[0]] + sorted[1..];
      [sorted[0]] + InsertByTime(sorted[1..], x)
  }

  /**
   * `sort((a, b) => b.createdAt - a.createdAt)` on a list in insertion
   * order: the sort is stable, so records with equal timestamps keep their
   * relative order.
   */
  function RecencyOrder(s: seq<Conversion>): (r: seq<Conversion>)
    ensures |r| == |s|
    ensures multiset(r) == multiset(s)
  {
    if s == [] then []
    else
      assert s == s[..|s| - 1] + [s[|s| - 1]];
      InsertByTime(RecencyOrder(s[..|s| - 1]), s[|s| - 1])
  }

  /** A record that precedes every element of a sorted list can be put in front of it. */
  lemma ConsKeepsOrder(a: Conversion, tail: seq<Conversion>)
    requires ByRecency(tail)
    requires forall j :: 0 <= j < |tail| ==> Precedes(a, tail[j])
    ensures ByRecency([a] + tail)
  {
    var r := [a] + tail;
    forall i, j | 0 <= i < j < |r|
      ensures Precedes(r[i], r[j])
    {
      assert r[j] == tail[j - 1];
      if i > 0 {
        assert r[i] == tail[i - 1];
      }
    }
  }

  /** Every element of the list after an insertion is the inserted record or was there before. */
  lemma InsertedFrom(sorted: seq<Conversion>, x: Conversion, j: nat)
    requires j < |InsertByTime(sorted, x)|
    ensures var y := InsertByTime(sorted, x)[j];
            y == x || exists k :: 0 <= k < |sorted| && sorted[k] == y
  {
    var y := InsertByTime(sorted, x)[j];
    assert y in multiset(InsertByTime(sorted, x));
    if y != x {
      assert y in multiset(sorted);
    }
  }

  /** Inserting a record newer in id than all the sorted ones keeps the order. */
  lemma {:induction false} InsertKeepsOrder(sorted: seq<Conversion>, x: Conversion)
    requires ByRecency(sorted)
    requires forall j :: 0 <= j < |sorted| ==> sorted[j].id < x.id
    ensures ByRecency(InsertByTime(sorted, x))
    decreases |sorted|
  {
    if sorted == [] {
    } else if sorted[0].createdAt < x.createdAt {
      forall j | 0 <= j < |sorted|
        ensures Precedes(x, sorted[j])
      {
        if j > 0 {
          assert Precedes(sorted[0], sorted[j]);
        }
      }
      ConsKeepsOrder(x, sorted);
    } else {
      var rest := sorted[1..];
      InsertKeepsOrder(rest, x);
      var tail := InsertByTime(rest, x);
      forall j | 0 <= j < |tail|
        ensures Precedes(sorted[0], tail[j])
      {
        InsertedFrom(rest, x, j);
        if tail[j] != x {
          var k :| 0 <= k < |rest| && rest[k] == tail[j];
          assert sorted[k + 1] == tail[j];
        }
      }
      ConsKeepsOrder(sorted[0], tail);
    }
  }

  /** Sorting a list in insertion order yields it newest first, ties by id, as a permutation. */
  lemma {:induction false} RecencyOrderSorts(s: seq<Conversion>)
    requires IdsAscending(s)
    ensures ByRecency(RecencyOrder(s))
    ensures multiset(RecencyOrder(s)) == multiset(s)
    decreases |s|
  {
    if s != [] {
      var front := s[..|s| - 1];
      var last := s[|s| - 1];
      RecencyOrderSorts(front);
      var sorted := RecencyOrder(front);
      forall j | 0 <= j < |sorted|
        ensures sorted[j].id < last.id
      {
        assert sorted[j] in multiset(front);
        var k :| 0 <= k < |front| && front[k] == sorted[j];
      }
      InsertKeepsOrder(sorted, last);
    }
  }

  /** Where `slice(0, end)` stops on a list of `length` elements. */
  function SliceEnd(length: nat, end: int): (k: nat)
    ensures k <= length
    ensures end >= 0 ==> k == if end < length then end else length
    ensures end < 0 ==> k == if length + end > 0 then length + end else 0
  {
    if end < 0 then (if length + end > 0 then length + end else 0)
    else if end < length then end
    else length
  }

  /** What getRecentConversions returns for the stored list and the limit given (or omitted). */
  function Recent(stored: seq<Conversion>, limit: Option<int>): seq<Conversion> {
    var sorted := RecencyOrder(stored);
    sorted[..SliceEnd(|sorted|, if limit.Some? then limit.value else DefaultLimit)]
  }

  /**
   * The recent list holds at most `limit` stored records (ten when the limit
   * is omitted), newest first, and no record left out is newer than one
   * returned.
   */
  lemma RecentAreNewest(stored: seq<Conversion>, limit: Option<int>)
    requires IdsAscending(stored)
    ensures var r := Recent(stored, limit);
            var n := if limit.Some? then limit.value else DefaultLimit;
            (n >= 0 ==> |r| == if n < |stored| then n else |stored|) &&
            ByRecency(r) &&
            multiset(r) <= multiset(stored) &&
            forall i, j :: 0 <= i < |r| <= j < |stored| ==> RecencyOrder(stored)[j].createdAt <= r[i].createdAt
  {
    RecencyOrderSorts(stored);
    var sorted := RecencyOrder(stored);
    PrefixOfSorted(sorted, SliceEnd(|sorted|, if limit.Some? then limit.value else DefaultLimit));
  }

  /** A prefix of a list sorted newest first is sorted, is part of the list, and is no older than the rest. */
  lemma PrefixOfSorted(sorted: seq<Conversion>, k: nat)
    requires ByRecency(sorted) && k <= |sorted|
    ensures ByRecency(sorted[..k])
    ensures multiset(sorted[..k]) <= multiset(sorted)
    ensures forall i, j :: 0 <= i < k <= j < |sorted| ==> sorted[j].createdAt <= sorted[i].createdAt
  {
    assert sorted == sorted[..k] + sorted[k..];
    assert multiset(sorted) == multiset(sorted[..k]) + multiset(sorted[k..]);
  }

  /** The conversion's lower-cased original name contains the lower-cased query. */
  predicate NameMatches(c: Conversion, name: string) {
    Contains(Lower(c.originalName), Lower(name))
  }

  /** `filter(conversion => …includes(…))`: the matching records, in insertion order. */
  function Matching(s: seq<Conversion>, name: string): (r: seq<Conversion>)
    ensures |r| <= |s|
  {
    if s == [] then []
    else Matching(s[..|s| - 1], name) + (if NameMatches(s[|s| - 1], name) then [s[|s| - 1]] else [])
  }

  /** A record is in the search result exactly when it is stored and its name matches. */
  lemma {:induction false} MatchingIsExact(s: seq<Conversion>, name: string)
    ensures forall c :: c in Matching(s, name) <==> c in s && NameMatches(c, name)
    decreases |s|
  {
    if s != [] {
      MatchingIsExact(s[..|s| - 1], name);
      assert s == s[..|s| - 1] + [s[|s| - 1]];
    }
  }

  /** The empty query matches every record: the search returns the whole list. */
  lemma {:induction false} EmptyQueryMatchesAll(s: seq<Conversion>)
    ensures Matching(s, "") == s
    decreases |s|
  {
    if s != [] {
      EmptyQueryMatchesAll(s[..|s| - 1]);
      ContainsEmpty(Lower(s[|s| - 1].originalName));
      assert s == s[..|s| - 1] + [s[|s| - 1]];
    }
  }

  /** The search keeps insertion order: its ids still increase. */
  lemma {:induction false} MatchingKeepsOrder(s: seq<Conversion>, name: string)
    requires IdsAscending(s)
    ensures IdsAscending(Matching(s, name))
    decreases |s|
  {
    if s != [] {
      var front := s[..|s| - 1];
      MatchingKeepsOrder(front, name);
      MatchingIsExact(front, name);
      var m := Matching(front, name);
      forall j | 0 <= j < |m|
        ensures m[j].id < s[|s| - 1].id
      {
        assert m[j] in front;
        var k :| 0 <= k < |front| && front[k] == m[j];
      }
    }
  }

  // ---------------------------------------------------------------------
  // MemStorage
  // ---------------------------------------------------------------------

  /** The keys `1 .. next - 1`, each holding the record with that id. */
  ghost predicate NumberedUsers(m: map<int, User>, next: int) {
    next >= 1 && (forall i :: i in m <==> 1 <= i < next) && (forall i :: i in m ==> m[i].id == i)
  }

  ghost predicate NumberedConversions(m: map<int, Conversion>, next: int) {
    next >= 1 && (forall i :: i in m <==> 1 <= i < next) && (forall i :: i in m ==> m[i].id == i)
  }

  class MemStorage {
    var users: map<int, User>
    var conversions: map<int, Conversion>
    var currentUserId: int
    var currentConversionId: int

    /** Each counter is the next free id, and the maps hold exactly the ids handed out so far. */
    ghost predicate Valid()
      reads this
    {
      NumberedUsers(users, currentUserId) && NumberedConversions(conversions, currentConversionId)
    }

    constructor()
      ensures Valid()
      ensures users == map[] && conversions == map[]
      ensures currentUserId == 1 && currentConversionId == 1
    {
      users := map[];
      conversions := map[];
      currentUserId := 1;
      currentConversionId := 1;
    }

    /** `Array.from(this.users.values())`: the users in insertion order, which is id order. */
    function UserList(): (r: seq<User>)
      reads this
      requires Valid()
      ensures |r| == currentUserId - 1
      ensures forall j :: 0 <= j < |r| ==> r[j] == users[j + 1]
    {
      seq(currentUserId - 1, j requires 0 <= j < currentUserId - 1 && j + 1 in users reads this => users[j + 1])
    }

    /** `Array.from(this.conversions.values())`, in insertion order. */
    function ConversionList(): (r: seq<Conversion>)
      reads this
      requires Valid()
      ensures |r| == currentConversionId - 1
      ensures forall j :: 0 <= j < |r| ==> r[j] == conversions[j + 1]
      ensures IdsAscending(r)
    {
      seq(currentConversionId - 1, j requires 0 <= j < currentConversionId - 1 && j + 1 in conversions reads this => conversions[j + 1])
    }

    /** getUser: the user stored under `id`, if any. */
    method GetUser(id: int) returns (r: Option<User>)
      requires Valid()
      ensures r.Some? <==> 1 <= id < currentUserId
      ensures r.Some? ==> r.value == users[id] && r.value.id == id
    {
      if id in users {
        r := Some(users[id]);
      } else {
        r := None;
      }
    }

    /** getUserByUsername: the earliest stored user with that username, if any. */
    method GetUserByUsername(username: string) returns (r: Option<User>)
      requires Valid()
      ensures r == FirstWithUsername(UserList(), username)
    {
      r := FirstWithUsername(UserList(), username);
    }

    /** createUser: the next user id is assigned, stored and returned; the conversions are untouched. */
    method CreateUser(insertUser: NewUser) returns (user: User)
      requires Valid()
      modifies this
      ensures Valid()
      ensures user == User(old(currentUserId), insertUser.username, insertUser.attributes)
      ensures users == old(users)[user.id := user] && user.id !in old(users)
      ensures currentUserId == old(currentUserId) + 1
      ensures UserList() == old(UserList()) + [user]
      ensures conversions == old(conversions) && currentConversionId == old(currentConversionId)
    {
      var id := currentUserId;
      currentUserId := currentUserId + 1;
      user := User(id, insertUser.username, insertUser.attributes);
      users := users[id := user];
    }

    /** createConversion: the next conversion id and the creation time `now` are added; the users are untouched. */
    method CreateConversion(insertConversion: NewConversion, now: int) returns (conversion: Conversion)
      requires Valid()
      modifies this
      ensures Valid()
      ensures conversion == Conversion(old(currentConversionId), insertConversion.originalName,
                                       insertConversion.sourceLanguage, insertConversion.koreanName,
                                       insertConversion.romanization, insertConversion.breakdown, now)
      ensures conversions == old(conversions)[conversion.id := conversion] && conversion.id !in old(conversions)
      ensures currentConversionId == old(currentConversionId) + 1
      ensures ConversionList() == old(ConversionList()) + [conversion]
      ensures users == old(users) && currentUserId == old(currentUserId)
    {
      var id := currentConversionId;
      currentConversionId := currentConversionId + 1;
      conversion := Conversion(id, insertConversion.originalName, insertConversion.sourceLanguage,
                               insertConversion.koreanName, insertConversion.romanization,
                               insertConversion.breakdown, now);
      conversions := conversions[id := conversion];
    }

    /** getRecentConversions: the stored conversions newest first, cut at the limit (ten when omitted). */
    method GetRecentConversions(limit: Option<int>) returns (r: seq<Conversion>)
      requires Valid()
      ensures r == Recent(ConversionList(), limit)
    {
      r := Recent(ConversionList(), limit);
    }

    /** getConversionsByName: the stored conversions whose name contains the query, ignoring case. */
    method GetConversionsByName(name: string) returns (r: seq<Conversion>)
      requires Valid()
      ensures r == Matching(ConversionList(), name)
    {
      r := Matching(ConversionList(), name);
    }
  }
}
