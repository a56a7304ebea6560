/** Cursor-paginated listing of the metabase (pkg/local_object_storage/metabase/list.go).

    The bbolt database is one read-only snapshot: the ascending top-level
    bucket names and, per bucket, its ascending keys. The collaborators whose
    definitions live outside list.go (address parsing, container identifiers
    of bucket names, bucket naming, the graveyard) are fields of `Env`.

    The two methods follow the Go code loop for loop. Each is proved equal to
    a specification that flattens the walk into a sequence of bucket visits
    (`Visit`) and folds over it (`SelectRun`, `ListRun`); the lemmas at the
    end give that specification its meaning: the page is the first `count`
    live addresses of the visit order, nothing inhumed is returned, the
    cursor names the last address of a full page, containers are visited
    once each and their buckets in the order primary, tombstone, storage
    group, and a resumed bucket starts strictly after the cursor key. */
module MetabaseList {
  import opened Common

  const CursorPrefixPrimary: char := 'p'
  const CursorPrefixTombstone: char := 't'
  const CursorPrefixSG: char := 's'

  predicate IsCursorPrefix(c: char)
  {
    c == CursorPrefixPrimary || c == CursorPrefixTombstone || c == CursorPrefixSG
  }

  /** Position of a bucket tag in the fixed scan order. */
  function Rank(tag: char): nat
  {
    if tag == CursorPrefixPrimary then 0
    else if tag == CursorPrefixTombstone then 1
    else if tag == CursorPrefixSG then 2
    else 3
  }

  /** Collaborators of list.go that are not part of this model. */
  datatype Env = Env(
    parseAddress: string -> Option<Address>,      // object.Address.Parse
    containerOfName: string -> Option<string>,    // container identifier encoded in a top-level bucket name
    primaryBucketName: string -> string,
    tombstoneBucketName: string -> string,
    storageGroupBucketName: string -> string,
    inGraveyard: Address -> nat)                  // non-zero: the address is inhumed

  /** One read transaction's view of the database. A name missing from
      `buckets` is a bucket that does not exist. */
  datatype Store = Store(names: seq<string>, buckets: map<string, seq<string>>)

  datatype ListError = InvalidCursorPrefix | InvalidCursorAddress | EndOfListing

  datatype Page = Page(addrs: seq<Address>, cursor: string)

  datatype LookupBucket = LookupBucket(name: string, prefix: char)

  // ---------------------------------------------------------------------
  // bbolt cursor positioning and string helpers

  function SeekFrom(keys: seq<string>, target: string, i: nat): (r: nat)
    requires i <= |keys|
    ensures i <= r <= |keys|
    ensures forall j :: i <= j < r ==> Less(keys[j], target)
    ensures r < |keys| ==> !Less(keys[r], target)
    decreases |keys| - i
  {
    if i == |keys| || !Less(keys[i], target) then i else SeekFrom(keys, target, i + 1)
  }

  /** Cursor.Seek: the position of the first key that is not below `target`
      (|keys| when there is none). */
  function Seek(keys: seq<string>, target: string): (r: nat)
    ensures r <= |keys|
    ensures forall j :: 0 <= j < r ==> Less(keys[j], target)
    ensures r < |keys| ==> !Less(keys[r], target)
  {
    SeekFrom(keys, target, 0)
  }

  /** Position of the first key read by `c.Seek(seekKey)` followed by `c.Next()`. */
  function ResumeIndex(keys: seq<string>, seekKey: string): nat
  {
    var j := Seek(keys, seekKey);
    if j < |keys| then j + 1 else |keys|
  }

  function IndexFrom(s: string, pat: string, from: nat): (r: Option<nat>)
    ensures r.Some? ==> from <= r.value && r.value + |pat| <= |s| && s[r.value..r.value + |pat|] == pat
    decreases |s| - from
  {
    if from + |pat| > |s| then None
    else if s[from..from + |pat|] == pat then Some(from)
    else IndexFrom(s, pat, from + 1)
  }

  /** strings.Replace(s, pat, "", 1): drop the first occurrence of `pat`. */
  function RemoveFirst(s: string, pat: string): string
  {
    match IndexFrom(s, pat, 0)
    case None => s
    case Some(k) => s[..k] + s[k + |pat|..]
  }

  /** parseContainerID: the container of a top-level name, or nothing when
      the name encodes none or that container was already listed. */
  function ParseContainerID(env: Env, name: string, unique: set<string>): Option<string>
  {
    match env.containerOfName(name)
    case None => None
    case Some(cid) => if cid in unique then None else Some(cid)
  }

  function LookupBuckets(env: Env, cid: string): seq<LookupBucket>
  {
    [ LookupBucket(env.primaryBucketName(cid), CursorPrefixPrimary),
      LookupBucket(env.tombstoneBucketName(cid), CursorPrefixTombstone),
      LookupBucket(env.storageGroupBucketName(cid), CursorPrefixSG) ]
  }

  // ---------------------------------------------------------------------
  // Specification: the walk as a sequence of bucket visits

  /** One key read from a bucket: the full address string built from it and
      the address it contributes to the page, if any. */
  datatype Examined = Examined(key: string, emit: Option<Address>)

  /** One call of selectNFromBucket: its container, its cursor tag and the
      keys it would read if no limit stopped it. */
  datatype Visit = Visit(container: string, tag: char, events: seq<Examined>)

  datatype Resume = Resume(tag: char, cursor: string)

  /** The address a full key contributes: it parses and is not inhumed. */
  function LiveAddress(env: Env, key: string): Option<Address>
  {
    match env.parseAddress(key)
    case None => None
    case Some(a) => if env.inGraveyard(a) > 0 then None else Some(a)
  }

  /** The keys of one bucket from position `i` on, up to and including the
      first one that does not parse. */
  function KeyEvents(env: Env, keys: seq<string>, prefix: string, i: nat): seq<Examined>
    decreases |keys| - i
  {
    if i >= |keys| then []
    else
      var key := prefix + keys[i];
      match env.parseAddress(key)
      case None => [Examined(key, None)]
      case Some(a) =>
        [Examined(key, if env.inGraveyard(a) > 0 then None else Some(a))]
          + KeyEvents(env, keys, prefix, i + 1)
  }

  function StartIndex(keys: seq<string>, seekKey: Option<string>): nat
  {
    match seekKey
    case None => 0
    case Some(k) => ResumeIndex(keys, k)
  }

  function BucketEvents(env: Env, store: Store, name: string, prefix: string, seekKey: Option<string>): seq<Examined>
  {
    if name in store.buckets then
      KeyEvents(env, store.buckets[name], prefix, StartIndex(store.buckets[name], seekKey))
    else []
  }

  /** The buckets of one container still to visit. While `resume` is set the
      buckets before the cursor's tag are skipped and the tagged one resumes
      after the cursor; every later bucket starts from its first key. */
  function ScanBuckets(env: Env, store: Store, cid: string, lbs: seq<LookupBucket>, resume: Option<Resume>): seq<Visit>
  {
    if lbs == [] then []
    else if resume.Some? && resume.value.tag != lbs[0].prefix then
      ScanBuckets(env, store, cid, lbs[1..], resume)
    else
      var seekKey := if resume.Some? then Some(RemoveFirst(resume.value.cursor, cid + "/")) else None;
      [Visit(cid, lbs[0].prefix, BucketEvents(env, store, lbs[0].name, cid + "/", seekKey))]
        + ScanBuckets(env, store, cid, lbs[1..], None)
  }

  /** The visits of the containers named from position `i` on. */
  function ListVisits(env: Env, store: Store, i: nat, unique: set<string>, resume: Option<Resume>): seq<Visit>
    decreases |store.names| - i
  {
    if i >= |store.names| then []
    else
      match ParseContainerID(env, store.names[i], unique)
      case None => ListVisits(env, store, i + 1, unique, resume)
      case Some(cid) =>
        ScanBuckets(env, store, cid, LookupBuckets(env, cid), resume)
          + ListVisits(env, store, i + 1, unique + {cid}, None)
  }

  predicate CursorWellFormed(env: Env, cursor: string)
  {
    cursor == [] || (IsCursorPrefix(cursor[0]) && env.parseAddress(cursor[1..]).Some?)
  }

  /** Every bucket visit one call makes, in order, for a well-formed cursor. */
  function Plan(env: Env, store: Store, cursor: string): seq<Visit>
    requires CursorWellFormed(env, cursor)
  {
    if cursor == [] then ListVisits(env, store, 0, {}, None)
    else
      var a := env.parseAddress(cursor[1..]).value;
      ListVisits(env, store, Seek(store.names, a.container), {}, Some(Resume(cursor[0], cursor[1..])))
  }

  /** The addresses the events contribute, in order. */
  function Emits(evs: seq<Examined>): seq<Address>
  {
    if evs == [] then [] else EmitOf(evs[0]) + Emits(evs[1..])
  }

  function EmitOf(e: Examined): seq<Address>
  {
    if e.emit.Some? then [e.emit.value] else []
  }

  /** The live addresses of a sequence of visits: the order in which a
      listing with no limit would return them. */
  function Emitted(visits: seq<Visit>): seq<Address>
  {
    if visits == [] then [] else Emits(visits[0].events) + Emitted(visits[1..])
  }

  /** Page under construction: the addresses so far and the last key read. */
  datatype Scan = Scan(addrs: seq<Address>, key: string)

  /** Scan state plus the tag of the last bucket entered. */
  datatype Listing = Listing(scan: Scan, tag: char)

  /** Reading the keys of one bucket until the page holds `limit` addresses. */
  function SelectRun(evs: seq<Examined>, limit: nat, s: Scan): Scan
  {
    if evs == [] || |s.addrs| >= limit then s
    else SelectRun(evs[1..], limit, Scan(s.addrs + EmitOf(evs[0]), evs[0].key))
  }

  /** Visiting buckets in order; the walk stops after the bucket that fills the page. */
  function ListRun(visits: seq<Visit>, count: nat, st: Listing): Listing
  {
    if visits == [] then st
    else
      var s := SelectRun(visits[0].events, count, st.scan);
      if |s.addrs| >= count then Listing(s, visits[0].tag)
      else ListRun(visits[1..], count, Listing(s, visits[0].tag))
  }

  function InitialListing(cursor: string): Listing
  {
    if cursor == [] then Listing(Scan([], []), 0 as char)
    else Listing(Scan([], cursor[1..]), cursor[0])
  }

  /** What one listWithCursor call returns. */
  function ListWithCursorSpec(env: Env, store: Store, count: nat, cursor: string): (r: Result<Page, ListError>)
    ensures r == Failure(InvalidCursorPrefix) <==> |cursor| > 0 && !IsCursorPrefix(cursor[0])
    ensures r == Failure(InvalidCursorAddress) <==>
      |cursor| > 0 && IsCursorPrefix(cursor[0]) && env.parseAddress(cursor[1..]).None?
    ensures r.Success? ==> CursorWellFormed(env, cursor)
  {
    if |cursor| > 0 && !IsCursorPrefix(cursor[0]) then Failure(InvalidCursorPrefix)
    else if |cursor| > 0 && env.parseAddress(cursor[1..]).None? then Failure(InvalidCursorAddress)
    else
      var st := ListRun(Plan(env, store, cursor), count, InitialListing(cursor));
      if |st.scan.addrs| == 0 then Failure(EndOfListing)
      else Success(Page(st.scan.addrs, [st.tag] + st.scan.key))
  }

  // ---------------------------------------------------------------------
  // Unfolding steps used by the loop invariants below

  lemma ListVisitsSkip(env: Env, store: Store, i: nat, unique: set<string>, resume: Option<Resume>)
    requires i < |store.names| && ParseContainerID(env, store.names[i], unique).None?
    ensures ListVisits(env, store, i, unique, resume) == ListVisits(env, store, i + 1, unique, resume)
  {
  }

  lemma ScanBucketsSkip(env: Env, store: Store, cid: string, lbs: seq<LookupBucket>, j: nat, resume: Option<Resume>)
    requires j < |lbs| && resume.Some? && resume.value.tag != lbs[j].prefix
    ensures ScanBuckets(env, store, cid, lbs[j..], resume) == ScanBuckets(env, store, cid, lbs[j + 1..], resume)
  {
    assert lbs[j..][1..] == lbs[j + 1..];
  }

  lemma ScanBucketsVisit(env: Env, store: Store, cid: string, lbs: seq<LookupBucket>, j: nat,
                         resume: Option<Resume>, count: nat, st: Listing)
    requires j < |lbs| && (resume.None? || resume.value.tag == lbs[j].prefix)
    ensures var seekKey := if resume.Some? then Some(RemoveFirst(resume.value.cursor, cid + "/")) else None;
      var s := SelectRun(BucketEvents(env, store, lbs[j].name, cid + "/", seekKey), count, st.scan);
      ListRun(ScanBuckets(env, store, cid, lbs[j..], resume), count, st)
        == if |s.addrs| >= count then Listing(s, lbs[j].prefix)
           else ListRun(ScanBuckets(env, store, cid, lbs[j + 1..], None), count, Listing(s, lbs[j].prefix))
  {
    assert lbs[j..][1..] == lbs[j + 1..];
  }

  /** A container's visits followed by the rest of the walk: the rest is
      reached only when the container's visits leave the page unfilled. */
  lemma {:induction false} ListRunAppend(a: seq<Visit>, rest: seq<Visit>, count: nat, st: Listing)
    requires a != []
    ensures var mid := ListRun(a, count, st);
      ListRun(a + rest, count, st) == if |mid.scan.addrs| >= count then mid else ListRun(rest, count, mid)
    decreases |a|
  {
    var s := SelectRun(a[0].events, count, st.scan);
    assert (a + rest)[0] == a[0];
    assert (a + rest)[1..] == a[1..] + rest;
    if |s.addrs| < count && |a| > 1 {
      ListRunAppend(a[1..], rest, count, Listing(s, a[0].tag));
    }
  }

  /** One step of the container walk: a container reached for the first time
      contributes its bucket visits, which either fill the page or hand over
      to the next name. */
  lemma WalkStep(env: Env, store: Store, i: nat, unique: set<string>, cid: string, resume: Option<Resume>,
                 count: nat, st: Listing, after: Listing)
    requires i < |store.names| && ParseContainerID(env, store.names[i], unique) == Some(cid)
    requires resume.None? || IsCursorPrefix(resume.value.tag)
    requires after == ListRun(ScanBuckets(env, store, cid, LookupBuckets(env, cid), resume), count, st)
    ensures ListRun(ListVisits(env, store, i, unique, resume), count, st)
        == if |after.scan.addrs| >= count then after
           else ListRun(ListVisits(env, store, i + 1, unique + {cid}, None), count, after)
  {
    var visits := ScanBuckets(env, store, cid, LookupBuckets(env, cid), resume);
    assert ListVisits(env, store, i, unique, resume) == visits + ListVisits(env, store, i + 1, unique + {cid}, None);
    ScanBucketsNonEmpty(env, store, cid, resume);
    ListRunAppend(visits, ListVisits(env, store, i + 1, unique + {cid}, None), count, st);
  }

  /** With no cursor, or a cursor whose tag names one of its buckets, a
      container yields at least one visit. */
  lemma ScanBucketsNonEmpty(env: Env, store: Store, cid: string, resume: Option<Resume>)
    requires resume.None? || IsCursorPrefix(resume.value.tag)
    ensures ScanBuckets(env, store, cid, LookupBuckets(env, cid), resume) != []
  {
    var lbs := LookupBuckets(env, cid);
    if resume.Some? && resume.value.tag != lbs[0].prefix {
      assert ScanBuckets(env, store, cid, lbs, resume) == ScanBuckets(env, store, cid, lbs[1..], resume);
      if resume.value.tag != lbs[1].prefix {
        assert lbs[1..][0] == lbs[1] && lbs[1..][1..] == [lbs[2]];
        assert ScanBuckets(env, store, cid, lbs[1..], resume) == ScanBuckets(env, store, cid, [lbs[2]], resume);
      }
    }
  }

  /** The state listWithCursor reaches before its walk, for a well-formed cursor. */
  lemma PlanStart(env: Env, store: Store, count: nat, cursor: string)
    requires CursorWellFormed(env, cursor)
    ensures var resume := if cursor == [] then None else Some(Resume(cursor[0], cursor[1..]));
      var start := if cursor == [] then 0 else Seek(store.names, env.parseAddress(cursor[1..]).value.container);
      var init := if cursor == [] then Listing(Scan([], cursor), 0 as char) else Listing(Scan([], cursor[1..]), cursor[0]);
      ListRun(Plan(env, store, cursor), count, InitialListing(cursor))
        == ListRun(ListVisits(env, store, start, {}, resume), count, init)
  {
  }

  // ---------------------------------------------------------------------
  // The Go code

  /** selectNFromBucket: append the live addresses of bucket `name` to `to`
      until it holds `limit` of them; with `threshold` unset, start after the
      key the cursor names. Returns the new list and the last key read. */
  method SelectNFromBucket(env: Env, store: Store, name: string, prefix: string,
                           to: seq<Address>, limit: nat, cursor: string, threshold: bool)
    returns (res: seq<Address>, resCursor: string)
    ensures Scan(res, resCursor) ==
      SelectRun(BucketEvents(env, store, name, prefix, if threshold then None else Some(RemoveFirst(cursor, prefix))),
                limit, Scan(to, cursor))
  {
    if name !in store.buckets {
      return to, cursor;
    }
    var keys := store.buckets[name];
    var i := 0;
    if !threshold {
      var seekKey := RemoveFirst(cursor, prefix);
      var j := Seek(keys, seekKey);
      i := if j < |keys| then j + 1 else |keys|;
    }
    assert BucketEvents(env, store, name, prefix, if threshold then None else Some(RemoveFirst(cursor, prefix)))
      == KeyEvents(env, keys, prefix, i);
    ScanFromIsSelectRun(env, keys, prefix, i, limit, Scan(to, cursor));
    res, resCursor := ScanKeys(env, keys, prefix, i, to, limit, cursor);
  }

  /** The key loop of selectNFromBucket (list.go:177-196), from position
      `start` of the bucket's keys. */
  method ScanKeys(env: Env, keys: seq<string>, prefix: string, start: nat,
                  to: seq<Address>, limit: nat, cursor: string)
    returns (res: seq<Address>, resCursor: string)
    ensures Scan(res, resCursor) == ScanFrom(env, keys, prefix, start, limit, Scan(to, cursor))
  {
    var count := |to|;
    var i := start;
    ghost var goal := ScanFrom(env, keys, prefix, i, limit, Scan(to, cursor));
    res, resCursor := to, cursor;
    while i < |keys|
      invariant count == |res|
      invariant goal == ScanFrom(env, keys, prefix, i, limit, Scan(res, resCursor))
    {
      if count >= limit {
        break;
      }
      var key := prefix + keys[i];
      resCursor := key;
      var a := env.parseAddress(key);
      if a.None? {
        return;
      }
      if env.inGraveyard(a.value) > 0 {
        i := i + 1;
        continue;
      }
      res := res + [a.value];
      count := count + 1;
      i := i + 1;
    }
  }

  /** The bucket scan as the loop performs it: from position `i`, stop at the
      limit, at the end of the bucket or after the first key that does not
      parse, and keep every parsed address that is not inhumed. */
  function ScanFrom(env: Env, keys: seq<string>, prefix: string, i: nat, limit: nat, s: Scan): Scan
    decreases |keys| - i
  {
    if i >= |keys| || |s.addrs| >= limit then s
    else
      var key := prefix + keys[i];
      match env.parseAddress(key)
      case None => Scan(s.addrs, key)
      case Some(a) =>
        if env.inGraveyard(a) > 0 then ScanFrom(env, keys, prefix, i + 1, limit, Scan(s.addrs, key))
        else ScanFrom(env, keys, prefix, i + 1, limit, Scan(s.addrs + [a], key))
  }

  /** The loop's scan is the fold of SelectRun over the keys' events. */
  lemma {:induction false} ScanFromIsSelectRun(env: Env, keys: seq<string>, prefix: string, i: nat, limit: nat, s: Scan)
    ensures ScanFrom(env, keys, prefix, i, limit, s) == SelectRun(KeyEvents(env, keys, prefix, i), limit, s)
    decreases |keys| - i
  {
    if i < |keys| && |s.addrs| < limit {
      var evs := KeyEvents(env, keys, prefix, i);
      KeyEventsHead(env, keys, prefix, i);
      SelectRunStep(evs, limit, s);
      var s' := Scan(s.addrs + EmitOf(evs[0]), evs[0].key);
      var key := prefix + keys[i];
      if env.parseAddress(key).Some? {
        var a := env.parseAddress(key).value;
        if env.inGraveyard(a) > 0 {
          assert s' == Scan(s.addrs, key);
        } else {
          assert s' == Scan(s.addrs + [a], key);
        }
        ScanFromIsSelectRun(env, keys, prefix, i + 1, limit, s');
      } else {
        assert SelectRun(evs[1..], limit, s') == s';
      }
    }
  }

  /** The first key a bucket scan reads at position `i`, and what follows it. */
  lemma KeyEventsHead(env: Env, keys: seq<string>, prefix: string, i: nat)
    requires i < |keys|
    ensures var evs := KeyEvents(env, keys, prefix, i);
      var key := prefix + keys[i];
      && evs != []
      && evs[0] == Examined(key, LiveAddress(env, key))
      && (env.parseAddress(key).None? ==> evs[1..] == [])
      && (env.parseAddress(key).Some? ==> evs[1..] == KeyEvents(env, keys, prefix, i + 1))
  {
  }

  lemma SelectRunStep(evs: seq<Examined>, limit: nat, s: Scan)
    requires evs != [] && |s.addrs| < limit
    ensures SelectRun(evs, limit, s) == SelectRun(evs[1..], limit, Scan(s.addrs + EmitOf(evs[0]), evs[0].key))
  {
  }

  /** listWithCursor: decode and check the cursor (list.go:80-96), then walk
      the containers from the one it names. */
  method ListWithCursor(env: Env, store: Store, count: nat, cursor: string)
    returns (r: Result<Page, ListError>)
    ensures r == ListWithCursorSpec(env, store, count, cursor)
  {
    var threshold := |cursor| == 0;
    var cursorPrefix: char := 0 as char;
    var cur := cursor;
    var start := 0;
    if !threshold {
      cursorPrefix := cursor[0];
      if !IsCursorPrefix(cursorPrefix) {
        return Failure(InvalidCursorPrefix);
      }
      cur := cursor[1..];
      var a := env.parseAddress(cur);
      if a.None? {
        return Failure(InvalidCursorAddress);
      }
      start := Seek(store.names, a.value.container);
    }
    PlanStart(env, store, count, cursor);
    r := WalkContainers(env, store, count, start, threshold, cursorPrefix, cur);
  }

  /** The walk of listWithCursor (list.go:98-148): from top-level name
      `start`, visit each container not seen before; stop once `count`
      addresses are collected. */
  method WalkContainers(env: Env, store: Store, count: nat, start: nat, threshold: bool,
                        cursorPrefix: char, cursor: string)
    returns (r: Result<Page, ListError>)
    requires start <= |store.names|
    requires !threshold ==> IsCursorPrefix(cursorPrefix)
    ensures var st := ListRun(ListVisits(env, store, start, {}, if threshold then None else Some(Resume(cursorPrefix, cursor))),
                              count, Listing(Scan([], cursor), cursorPrefix));
      r == if |st.scan.addrs| == 0 then Failure(EndOfListing) else Success(Page(st.scan.addrs, [st.tag] + st.scan.key))
  {
    var threshold := threshold;
    var cursorPrefix := cursorPrefix;
    var cur := cursor;
    var i := start;
    var result: seq<Address> := [];
    var unique: set<string> := {};
    ghost var resume: Option<Resume> := if threshold then None else Some(Resume(cursorPrefix, cur));
    WalkFromIsListRun(env, store, i, unique, resume, count, Listing(Scan(result, cur), cursorPrefix));
    ghost var final := WalkFrom(env, store, i, unique, resume, count, Listing(Scan(result, cur), cursorPrefix));
    while i < |store.names|
      invariant i <= |store.names|
      invariant threshold <==> resume.None?
      invariant resume.Some? ==> resume.value == Resume(cursorPrefix, cur) && IsCursorPrefix(cursorPrefix)
      invariant final == WalkFrom(env, store, i, unique, resume, count, Listing(Scan(result, cur), cursorPrefix))
    {
      var cid := ParseContainerID(env, store.names[i], unique);
      if cid.Some? {
        result, cur, cursorPrefix, threshold := WalkBuckets(env, store, cid.value, count, result, cur, cursorPrefix, threshold);
        unique := unique + {cid.value};
        if |result| >= count {
          assert final == Listing(Scan(result, cur), cursorPrefix);
          break;
        }
        resume := None;
      }
      i := i + 1;
    }
    assert final == Listing(Scan(result, cur), cursorPrefix);
    if |result| == 0 {
      return Failure(EndOfListing);
    }
    return Success(Page(result, [cursorPrefix] + cur));
  }

  /** The container walk as the loop performs it: each new container's
      buckets are read in turn, and the walk stops at the first container
      that fills the page. */
  function WalkFrom(env: Env, store: Store, i: nat, unique: set<string>, resume: Option<Resume>,
                    count: nat, st: Listing): Listing
    decreases |store.names| - i
  {
    if i >= |store.names| then st
    else
      match ParseContainerID(env, store.names[i], unique)
      case None => WalkFrom(env, store, i + 1, unique, resume, count, st)
      case Some(cid) =>
        var after := ListRun(ScanBuckets(env, store, cid, LookupBuckets(env, cid), resume), count, st);
        if |after.scan.addrs| >= count then after
        else WalkFrom(env, store, i + 1, unique + {cid}, None, count, after)
  }

  /** Stopping at the container that fills the page is the same as running
      the fold over all the visits. */
  lemma {:induction false} WalkFromIsListRun(env: Env, store: Store, i: nat, unique: set<string>,
                                             resume: Option<Resume>, count: nat, st: Listing)
    requires resume.None? || IsCursorPrefix(resume.value.tag)
    ensures WalkFrom(env, store, i, unique, resume, count, st) == ListRun(ListVisits(env, store, i, unique, resume), count, st)
    decreases |store.names| - i
  {
    if i < |store.names| {
      match ParseContainerID(env, store.names[i], unique)
      case None =>
        WalkFromIsListRun(env, store, i + 1, unique, resume, count, st);
      case Some(cid) =>
        var after := ListRun(ScanBuckets(env, store, cid, LookupBuckets(env, cid), resume), count, st);
        WalkStep(env, store, i, unique, cid, resume, count, st, after);
        if |after.scan.addrs| < count {
          WalkFromIsListRun(env, store, i + 1, unique + {cid}, None, count, after);
        }
    }
  }

  /** The bucket loop of listWithCursor for one container (list.go:128-141):
      skip, while `threshold` is unset, the buckets before the cursor's tag;
      read each remaining bucket, the first one after the cursor, until the
      page is full. */
  method WalkBuckets(env: Env, store: Store, cid: string, count: nat, result: seq<Address>,
                     cursor: string, cursorPrefix: char, threshold: bool)
    returns (res: seq<Address>, cur: string, tag: char, thresholdOut: bool)
    requires !threshold ==> IsCursorPrefix(cursorPrefix)
    ensures Listing(Scan(res, cur), tag)
      == ListRun(ScanBuckets(env, store, cid, LookupBuckets(env, cid), if threshold then None else Some(Resume(cursorPrefix, cursor))),
                 count, Listing(Scan(result, cursor), cursorPrefix))
    ensures |res| < count ==> thresholdOut
  {
    var lookup := LookupBuckets(env, cid);
    var prefix := cid + "/";
    res, cur, tag, thresholdOut := result, cursor, cursorPrefix, threshold;
    ghost var resume: Option<Resume> := if threshold then None else Some(Resume(cursorPrefix, cursor));
    ghost var goal := ListRun(ScanBuckets(env, store, cid, lookup, resume), count, Listing(Scan(res, cur), tag));
    assert lookup[0..] == lookup;
    var j := 0;
    while j < |lookup|
      invariant j <= |lookup|
      invariant thresholdOut <==> resume.None?
      invariant resume.Some? ==> resume.value == Resume(tag, cur) && IsCursorPrefix(tag) && Rank(tag) >= j
      invariant goal == ListRun(ScanBuckets(env, store, cid, lookup[j..], resume), count, Listing(Scan(res, cur), tag))
    {
      var lb := lookup[j];
      if !thresholdOut && tag != lb.prefix {
        ScanBucketsSkip(env, store, cid, lookup, j, resume);
        j := j + 1;
        continue;
      }
      ScanBucketsVisit(env, store, cid, lookup, j, resume, count, Listing(Scan(res, cur), tag));
      tag := lb.prefix;
      res, cur := SelectNFromBucket(env, store, lb.name, prefix, res, count, cur, thresholdOut);
      if |res| >= count {
        return;
      }
      thresholdOut := true;
      resume := None;
      j := j + 1;
    }
    assert lookup[j..] == [];
  }

  // ---------------------------------------------------------------------
  // What the specification means

  function Min(a: int, b: int): int
  {
    if a < b then a else b
  }

  /** Reading one bucket appends the first addresses its keys contribute,
      as many as fit below `limit`. */
  lemma {:induction false} SelectRunTakes(evs: seq<Examined>, limit: nat, s: Scan)
    requires |s.addrs| <= limit
    ensures SelectRun(evs, limit, s).addrs == s.addrs + Emits(evs)[..Min(limit - |s.addrs|, |Emits(evs)|)]
    decreases |evs|
  {
    if evs != [] && |s.addrs| < limit {
      var s' := Scan(s.addrs + EmitOf(evs[0]), evs[0].key);
      SelectRunTakes(evs[1..], limit, s');
      var e := Emits(evs);
      var e1 := Emits(evs[1..]);
      var n := Min(limit - |s.addrs|, |e|);
      var n1 := Min(limit - |s'.addrs|, |e1|);
      assert e == EmitOf(evs[0]) + e1;
      assert e[..n] == EmitOf(evs[0]) + e1[..n1];
    }
  }

  /** The walk collects exactly the first `count` addresses of the whole
      visit sequence (or all of them, when there are fewer). */
  lemma {:induction false} ListRunTakes(visits: seq<Visit>, count: nat, st: Listing)
    requires |st.scan.addrs| <= count
    ensures ListRun(visits, count, st).scan.addrs
         == st.scan.addrs + Emitted(visits)[..Min(count - |st.scan.addrs|, |Emitted(visits)|)]
    decreases |visits|
  {
    if visits != [] {
      var s := SelectRun(visits[0].events, count, st.scan);
      SelectRunTakes(visits[0].events, count, st.scan);
      var a := Emits(visits[0].events);
      var b := Emitted(visits[1..]);
      assert Emitted(visits) == a + b;
      var room := count - |st.scan.addrs|;
      if |s.addrs| >= count {
        assert (a + b)[..room] == a[..room];
      } else {
        ListRunTakes(visits[1..], count, Listing(s, visits[0].tag));
        assert (a + b)[..Min(room, |a| + |b|)] == a + b[..Min(room - |a|, |b|)];
      }
    }
  }

  /** A page is the first `count` live addresses in visit order: it is a
      prefix of that order, never longer than `count`, and shorter only when
      the order is exhausted. */
  lemma PageIsFirstLiveAddresses(env: Env, store: Store, count: nat, cursor: string)
    requires ListWithCursorSpec(env, store, count, cursor).Success?
    ensures var p := ListWithCursorSpec(env, store, count, cursor).value;
      var stream := Emitted(Plan(env, store, cursor));
      && 0 < |p.addrs| <= count
      && |p.addrs| <= |stream|
      && p.addrs == stream[..|p.addrs|]
      && (|p.addrs| == count || p.addrs == stream)
  {
    ListRunTakes(Plan(env, store, cursor), count, InitialListing(cursor));
  }

  /** ErrEndOfListing is returned exactly when the page would hold nothing:
      the limit is zero or no live address is left in visit order. */
  lemma EndOfListingWhenNothingLeft(env: Env, store: Store, count: nat, cursor: string)
    requires CursorWellFormed(env, cursor)
    ensures ListWithCursorSpec(env, store, count, cursor) == Failure(EndOfListing)
        <==> count == 0 || Emitted(Plan(env, store, cursor)) == []
  {
    ListRunTakes(Plan(env, store, cursor), count, InitialListing(cursor));
  }

  /** Every address an event contributes parsed from its key and is not inhumed. */
  ghost predicate LiveEvents(env: Env, evs: seq<Examined>)
  {
    forall e :: e in evs && e.emit.Some? ==>
      env.parseAddress(e.key) == e.emit && env.inGraveyard(e.emit.value) == 0
  }

  ghost predicate WellFormedVisit(env: Env, v: Visit)
  {
    IsCursorPrefix(v.tag) && LiveEvents(env, v.events)
  }

  /** Each container's visits form one contiguous block, and inside it the
      tags strictly follow the order primary, tombstone, storage group. */
  ghost predicate ContainerBlocks(visits: seq<Visit>)
  {
    forall i, j :: 0 <= i < j < |visits| && visits[i].container == visits[j].container ==>
      Rank(visits[i].tag) < Rank(visits[j].tag)
      && (forall k :: i < k < j ==> visits[k].container == visits[i].container)
  }

  /** The keys a bucket scan reads are the bucket's keys from `i` on, in
      order; each contributes its address exactly when it parses and is not
      inhumed; the scan ends early only at a key that does not parse. */
  lemma {:induction false} KeyEventsShape(env: Env, keys: seq<string>, prefix: string, i: nat)
    requires i <= |keys|
    ensures var evs := KeyEvents(env, keys, prefix, i);
      && |evs| <= |keys| - i
      && (forall k :: 0 <= k < |evs| ==> evs[k].key == prefix + keys[i + k])
      && (forall k :: 0 <= k < |evs| ==> evs[k].emit == LiveAddress(env, evs[k].key))
      && (forall k :: 0 <= k < |evs| - 1 ==> env.parseAddress(evs[k].key).Some?)
      && (|evs| < |keys| - i ==> |evs| > 0 && env.parseAddress(evs[|evs| - 1].key).None?)
    decreases |keys| - i
  {
    if i < |keys| && env.parseAddress(prefix + keys[i]).Some? {
      KeyEventsShape(env, keys, prefix, i + 1);
      var evs := KeyEvents(env, keys, prefix, i);
      assert evs[1..] == KeyEvents(env, keys, prefix, i + 1);
    }
  }

  lemma {:induction false} KeyEventsLive(env: Env, keys: seq<string>, prefix: string, i: nat)
    ensures LiveEvents(env, KeyEvents(env, keys, prefix, i))
    decreases |keys| - i
  {
    if i < |keys| && env.parseAddress(prefix + keys[i]).Some? {
      KeyEventsLive(env, keys, prefix, i + 1);
    }
  }

  /** Visits of container `cid`, each with a valid tag of rank at least
      `low` and only live addresses. */
  ghost predicate ContainerVisitsFrom(env: Env, cid: string, vs: seq<Visit>, low: nat)
  {
    forall v :: v in vs ==> v.container == cid && WellFormedVisit(env, v) && low <= Rank(v.tag)
  }

  ghost predicate RanksIncrease(vs: seq<Visit>)
  {
    forall a, b :: 0 <= a < b < |vs| ==> Rank(vs[a].tag) < Rank(vs[b].tag)
  }

  /** Bucket lookups with valid tags in strictly increasing rank. */
  ghost predicate LookupOrder(lbs: seq<LookupBucket>)
  {
    && (forall a :: 0 <= a < |lbs| ==> IsCursorPrefix(lbs[a].prefix))
    && (forall a, b :: 0 <= a < b < |lbs| ==> Rank(lbs[a].prefix) < Rank(lbs[b].prefix))
  }

  lemma {:induction false} ScanBucketsMembers(env: Env, store: Store, cid: string, lbs: seq<LookupBucket>, resume: Option<Resume>)
    requires lbs != [] && LookupOrder(lbs)
    ensures ContainerVisitsFrom(env, cid, ScanBuckets(env, store, cid, lbs, resume), Rank(lbs[0].prefix))
    decreases |lbs|
  {
    var vs := ScanBuckets(env, store, cid, lbs, resume);
    if |lbs| > 1 {
      assert lbs[1..][0] == lbs[1];
      assert LookupOrder(lbs[1..]);
    }
    if resume.Some? && resume.value.tag != lbs[0].prefix {
      if |lbs| > 1 {
        ScanBucketsMembers(env, store, cid, lbs[1..], resume);
      }
    } else {
      var seekKey := if resume.Some? then Some(RemoveFirst(resume.value.cursor, cid + "/")) else None;
      var name := lbs[0].name;
      if name in store.buckets {
        KeyEventsLive(env, store.buckets[name], cid + "/", StartIndex(store.buckets[name], seekKey));
      }
      if |lbs| > 1 {
        ScanBucketsMembers(env, store, cid, lbs[1..], None);
      }
    }
  }

  lemma {:induction false} ScanBucketsRanks(env: Env, store: Store, cid: string, lbs: seq<LookupBucket>, resume: Option<Resume>)
    requires lbs != [] && LookupOrder(lbs)
    ensures RanksIncrease(ScanBuckets(env, store, cid, lbs, resume))
    decreases |lbs|
  {
    var vs := ScanBuckets(env, store, cid, lbs, resume);
    if |lbs| > 1 {
      assert lbs[1..][0] == lbs[1];
      assert LookupOrder(lbs[1..]);
    }
    if resume.Some? && resume.value.tag != lbs[0].prefix {
      if |lbs| > 1 {
        ScanBucketsRanks(env, store, cid, lbs[1..], resume);
      }
    } else if |lbs| > 1 {
      var tail := ScanBuckets(env, store, cid, lbs[1..], None);
      ScanBucketsRanks(env, store, cid, lbs[1..], None);
      ScanBucketsMembers(env, store, cid, lbs[1..], None);
      forall a, b | 0 <= a < b < |vs| ensures Rank(vs[a].tag) < Rank(vs[b].tag) {
        assert vs[b] == tail[b - 1];
        if a > 0 {
          assert vs[a] == tail[a - 1];
        } else {
          assert vs[b] in tail;
        }
      }
    }
  }

  lemma BlocksAppend(a: seq<Visit>, b: seq<Visit>, cid: string)
    requires ContainerBlocks(a) && ContainerBlocks(b)
    requires forall k :: 0 <= k < |a| ==> a[k].container == cid
    requires forall k :: 0 <= k < |b| ==> b[k].container != cid
    ensures ContainerBlocks(a + b)
  {
    var ab := a + b;
    forall i, j | 0 <= i < j < |ab| && ab[i].container == ab[j].container
      ensures Rank(ab[i].tag) < Rank(ab[j].tag)
      ensures forall k :: i < k < j ==> ab[k].container == ab[i].container
    {
      if j < |a| {
        assert ab[i] == a[i] && ab[j] == a[j];
        assert forall k :: i < k < j ==> ab[k] == a[k];
      } else if i >= |a| {
        assert ab[i] == b[i - |a|] && ab[j] == b[j - |a|];
        assert forall k :: i < k < j ==> ab[k] == b[k - |a|];
      } else {
        assert false;
      }
    }
  }

  /** The visits of one call: containers come one block each (never twice),
      none of them already listed, and every visit carries a valid tag and
      contributes only live addresses. */
  lemma {:induction false} ListVisitsFacts(env: Env, store: Store, i: nat, unique: set<string>, resume: Option<Resume>)
    ensures var vs := ListVisits(env, store, i, unique, resume);
      && ContainerBlocks(vs)
      && (forall v :: v in vs ==> v.container !in unique && WellFormedVisit(env, v))
    decreases |store.names| - i
  {
    if i < |store.names| {
      match ParseContainerID(env, store.names[i], unique)
      case None =>
        ListVisitsFacts(env, store, i + 1, unique, resume);
      case Some(cid) =>
        var a := ScanBuckets(env, store, cid, LookupBuckets(env, cid), resume);
        var b := ListVisits(env, store, i + 1, unique + {cid}, None);
        ContainerScanFacts(env, store, cid, resume);
        ListVisitsFacts(env, store, i + 1, unique + {cid}, None);
        assert forall k :: 0 <= k < |b| ==> b[k] in b;
        BlocksAppend(a, b, cid);
        assert ListVisits(env, store, i, unique, resume) == a + b;
    }
  }

  /** The visits of one container form a single block with valid tags and
      only live addresses. */
  lemma ContainerScanFacts(env: Env, store: Store, cid: string, resume: Option<Resume>)
    ensures var a := ScanBuckets(env, store, cid, LookupBuckets(env, cid), resume);
      && ContainerBlocks(a)
      && (forall v :: v in a ==> v.container == cid && WellFormedVisit(env, v))
      && (forall k :: 0 <= k < |a| ==> a[k].container == cid)
  {
    var lbs := LookupBuckets(env, cid);
    var a := ScanBuckets(env, store, cid, lbs, resume);
    assert |lbs| == 3 && Rank(lbs[0].prefix) == 0 && Rank(lbs[1].prefix) == 1 && Rank(lbs[2].prefix) == 2;
    assert LookupOrder(lbs);
    ScanBucketsMembers(env, store, cid, lbs, resume);
    ScanBucketsRanks(env, store, cid, lbs, resume);
    assert forall k :: 0 <= k < |a| ==> a[k] in a;
  }

  lemma {:induction false} EmittedLive(env: Env, visits: seq<Visit>)
    requires forall v :: v in visits ==> WellFormedVisit(env, v)
    ensures forall a :: a in Emitted(visits) ==> env.inGraveyard(a) == 0
    decreases |visits|
  {
    if visits != [] {
      assert visits[0] in visits;
      EmitsLive(env, visits[0].events);
      EmittedLive(env, visits[1..]);
    }
  }

  lemma {:induction false} EmitsLive(env: Env, evs: seq<Examined>)
    requires LiveEvents(env, evs)
    ensures forall a :: a in Emits(evs) ==> env.inGraveyard(a) == 0
    decreases |evs|
  {
    if evs != [] {
      EmitsLive(env, evs[1..]);
    }
  }

  /** The visits of one call are ordered as list.go walks them: each
      container once, as one block, its buckets in tag order. */
  lemma PlanVisitsEachContainerOnce(env: Env, store: Store, cursor: string)
    requires CursorWellFormed(env, cursor)
    ensures ContainerBlocks(Plan(env, store, cursor))
  {
    if cursor == [] {
      ListVisitsFacts(env, store, 0, {}, None);
    } else {
      var a := env.parseAddress(cursor[1..]).value;
      ListVisitsFacts(env, store, Seek(store.names, a.container), {}, Some(Resume(cursor[0], cursor[1..])));
    }
  }

  /** No address on a page is inhumed. */
  lemma PageHasNoInhumedAddress(env: Env, store: Store, count: nat, cursor: string)
    requires ListWithCursorSpec(env, store, count, cursor).Success?
    ensures forall a :: a in ListWithCursorSpec(env, store, count, cursor).value.addrs ==> env.inGraveyard(a) == 0
  {
    PageIsFirstLiveAddresses(env, store, count, cursor);
    var stream := Emitted(Plan(env, store, cursor));
    if cursor == [] {
      ListVisitsFacts(env, store, 0, {}, None);
    } else {
      var a := env.parseAddress(cursor[1..]).value;
      ListVisitsFacts(env, store, Seek(store.names, a.container), {}, Some(Resume(cursor[0], cursor[1..])));
    }
    EmittedLive(env, Plan(env, store, cursor));
    var p := ListWithCursorSpec(env, store, count, cursor).value;
    forall a | a in p.addrs ensures env.inGraveyard(a) == 0 {
      var k :| 0 <= k < |p.addrs| && p.addrs[k] == a;
      assert stream[k] == a;
    }
  }

  lemma {:induction false} SelectRunCursor(env: Env, evs: seq<Examined>, limit: nat, s: Scan)
    requires LiveEvents(env, evs) && |s.addrs| < limit
    ensures var r := SelectRun(evs, limit, s);
      |r.addrs| >= limit ==> |r.addrs| > 0 && env.parseAddress(r.key) == Some(r.addrs[|r.addrs| - 1])
    decreases |evs|
  {
    if evs != [] {
      var s' := Scan(s.addrs + EmitOf(evs[0]), evs[0].key);
      if |s'.addrs| < limit {
        SelectRunCursor(env, evs[1..], limit, s');
      } else {
        assert evs[0] in evs;
      }
    }
  }

  lemma {:induction false} ListRunCursor(env: Env, visits: seq<Visit>, count: nat, st: Listing)
    requires forall v :: v in visits ==> WellFormedVisit(env, v)
    requires |st.scan.addrs| < count
    ensures var r := ListRun(visits, count, st);
      && (visits != [] ==> IsCursorPrefix(r.tag))
      && (|r.scan.addrs| >= count ==> |r.scan.addrs| > 0 && env.parseAddress(r.scan.key) == Some(r.scan.addrs[|r.scan.addrs| - 1]))
    decreases |visits|
  {
    if visits != [] {
      assert visits[0] in visits;
      SelectRunCursor(env, visits[0].events, count, st.scan);
      var s := SelectRun(visits[0].events, count, st.scan);
      if |s.addrs| < count {
        ListRunCursor(env, visits[1..], count, Listing(s, visits[0].tag));
      }
    }
  }

  /** The returned cursor starts with a valid tag; when the page is full its
      remainder parses to the last address on the page, so the next call
      accepts it and resumes after that address. */
  lemma PageCursorNamesLastAddress(env: Env, store: Store, count: nat, cursor: string)
    requires ListWithCursorSpec(env, store, count, cursor).Success?
    ensures var p := ListWithCursorSpec(env, store, count, cursor).value;
      && IsCursorPrefix(p.cursor[0])
      && (|p.addrs| == count ==> env.parseAddress(p.cursor[1..]) == Some(p.addrs[|p.addrs| - 1]))
      && (|p.addrs| == count ==> CursorWellFormed(env, p.cursor))
  {
    PageIsFirstLiveAddresses(env, store, count, cursor);
    if cursor == [] {
      ListVisitsFacts(env, store, 0, {}, None);
    } else {
      var a := env.parseAddress(cursor[1..]).value;
      ListVisitsFacts(env, store, Seek(store.names, a.container), {}, Some(Resume(cursor[0], cursor[1..])));
    }
    var plan := Plan(env, store, cursor);
    ListRunCursor(env, plan, count, InitialListing(cursor));
    var st := ListRun(plan, count, InitialListing(cursor));
    var p := ListWithCursorSpec(env, store, count, cursor).value;
    assert p.cursor[1..] == st.scan.key;
  }

  /** A store with one container "C1" whose primary bucket holds an object
      "a1" and then a key "zz" that does not parse as an address. */
  function UnparsableTailEnv(): Env
  {
    Env(s => if s == "C1/a1" then Some(Address("C1", "a1")) else None,
        n => if n == "C1" then Some(n) else None,
        c => c, c => c + "_TS", c => c + "_SG",
        a => 0)
  }

  function UnparsableTailStore(): Store
  {
    Store(["C1"], map["C1" := ["a1", "zz"]])
  }

  lemma UnparsableTailEvents()
    ensures KeyEvents(UnparsableTailEnv(), ["a1", "zz"], "C1/", 0)
      == [Examined("C1/a1", Some(Address("C1", "a1"))), Examined("C1/zz", None)]
  {
    var env, keys := UnparsableTailEnv(), ["a1", "zz"];
    assert "C1/" + keys[0] == "C1/a1" && "C1/" + keys[1] == "C1/zz";
    assert "C1/zz" != "C1/a1";
    assert env.parseAddress("C1/a1") == Some(Address("C1", "a1"));
    assert env.parseAddress("C1/zz") == None;
    assert KeyEvents(env, keys, "C1/", 1) == [Examined("C1/zz", None)];
  }

  lemma UnparsableTailPlan()
    ensures Plan(UnparsableTailEnv(), UnparsableTailStore(), "")
      == [Visit("C1", 'p', KeyEvents(UnparsableTailEnv(), ["a1", "zz"], "C1/", 0)), Visit("C1", 't', []), Visit("C1", 's', [])]
  {
    var env, store := UnparsableTailEnv(), UnparsableTailStore();
    assert "C1" + "_TS" == "C1_TS" && "C1" + "_SG" == "C1_SG";
    assert "C1_TS" != "C1" && "C1_SG" != "C1";
    var lbs := LookupBuckets(env, "C1");
    assert lbs == [LookupBucket("C1", 'p'), LookupBucket("C1_TS", 't'), LookupBucket("C1_SG", 's')];
    var visits := [Visit("C1", 'p', KeyEvents(env, ["a1", "zz"], "C1/", 0)), Visit("C1", 't', []), Visit("C1", 's', [])];
    assert lbs[1..][1..] == lbs[2..] && lbs[2..][1..] == [];
    assert "C1" + "/" == "C1/" && store.buckets["C1"] == ["a1", "zz"];
    assert BucketEvents(env, store, "C1", "C1/", None) == KeyEvents(env, ["a1", "zz"], "C1/", 0);
    assert ScanBuckets(env, store, "C1", lbs[2..], None) == visits[2..];
    assert ScanBuckets(env, store, "C1", lbs[1..], None) == visits[1..];
    assert ScanBuckets(env, store, "C1", lbs, None) == visits;
    assert env.containerOfName("C1") == Some("C1");
    assert ListVisits(env, store, 1, {"C1"}, None) == [];
    assert ListVisits(env, store, 0, {}, None) == visits + [];
  }

  lemma UnparsableTailRun()
    ensures ListRun(Plan(UnparsableTailEnv(), UnparsableTailStore(), ""), 10, InitialListing(""))
      == Listing(Scan([Address("C1", "a1")], "C1/zz"), 's')
  {
    var a1 := Address("C1", "a1");
    UnparsableTailEvents();
    UnparsableTailPlan();
    var evs := [Examined("C1/a1", Some(a1)), Examined("C1/zz", None)];
    var visits := [Visit("C1", 'p', evs), Visit("C1", 't', []), Visit("C1", 's', [])];
    assert Plan(UnparsableTailEnv(), UnparsableTailStore(), "") == visits;
    assert EmitOf(evs[0]) == [a1] && EmitOf(evs[1]) == [] && evs[1..][1..] == [];
    SelectRunStep(evs[1..], 10, Scan([a1], "C1/a1"));
    assert SelectRun(evs[1..], 10, Scan([a1], "C1/a1")) == Scan([a1], "C1/zz");
    SelectRunStep(evs, 10, Scan([], []));
    assert [] + [a1] == [a1];
    var s := SelectRun(evs, 10, Scan([], []));
    assert s == Scan([a1], "C1/zz");
    assert ListRun(visits[2..], 10, Listing(s, 't')) == Listing(s, 's');
    assert ListRun(visits[1..], 10, Listing(s, 'p')) == Listing(s, 's');
  }

  /** The cursor of a page that is not full is the last key read, which may
      be one that does not parse, under the tag of the last bucket entered:
      passing it back is refused as an invalid cursor address rather than
      answered with ErrEndOfListing. */
  lemma PartialPageCursorMayNotParse()
    ensures ListWithCursorSpec(UnparsableTailEnv(), UnparsableTailStore(), 10, "")
      == Success(Page([Address("C1", "a1")], ['s'] + "C1/zz"))
    ensures ListWithCursorSpec(UnparsableTailEnv(), UnparsableTailStore(), 10, ['s'] + "C1/zz")
      == Failure(InvalidCursorAddress)
  {
    UnparsableTailRun();
    assert (['s'] + "C1/zz")[1..] == "C1/zz";
    assert UnparsableTailEnv().parseAddress("C1/zz") == None by {
      assert "C1/zz" != "C1/a1";
    }
  }

  lemma LessAsymmetric(a: string, b: string)
    requires Less(a, b)
    ensures !Less(b, a)
  {
    if Less(b, a) {
      LessTransitive(a, b, a);
      LessIrreflexive(a);
    }
  }

  /** In sorted keys, a bucket resumed at `seekKey` reads only keys above it;
      when `seekKey` is present, exactly the keys above it. */
  lemma ResumeStartsAfterSeekKey(keys: seq<string>, seekKey: string)
    requires StrictlySorted(keys)
    ensures forall k :: ResumeIndex(keys, seekKey) <= k < |keys| ==> Less(seekKey, keys[k])
    ensures seekKey in keys ==>
      forall k :: 0 <= k < |keys| ==> (k >= ResumeIndex(keys, seekKey) <==> Less(seekKey, keys[k]))
  {
    var j := Seek(keys, seekKey);
    if j < |keys| {
      LessTotal(keys[j], seekKey);
      forall k | j < k < |keys| ensures Less(seekKey, keys[k]) {
        if keys[j] != seekKey {
          LessTransitive(seekKey, keys[j], keys[k]);
        }
      }
    }
    if seekKey in keys {
      var m :| 0 <= m < |keys| && keys[m] == seekKey;
      LessIrreflexive(seekKey);
      assert m == j;
      forall k | 0 <= k <= j ensures !Less(seekKey, keys[k]) {
        if k < j {
          LessAsymmetric(keys[k], seekKey);
        }
      }
    }
  }

  /** When the cursor's key is no longer in the bucket, Seek stops at the
      first key above it and the following Next steps over that key: the
      resumed scan starts one key later than the first key above the cursor. */
  lemma ResumeSkipsKeyAfterMissingCursor(keys: seq<string>, seekKey: string)
    requires StrictlySorted(keys) && seekKey !in keys
    requires Seek(keys, seekKey) < |keys|
    ensures var j := Seek(keys, seekKey);
      && Less(seekKey, keys[j])
      && (forall k :: 0 <= k < j ==> !Less(seekKey, keys[k]))
      && ResumeIndex(keys, seekKey) == j + 1
  {
    var j := Seek(keys, seekKey);
    LessTotal(keys[j], seekKey);
    forall k | 0 <= k < j ensures !Less(seekKey, keys[k]) {
      LessAsymmetric(keys[k], seekKey);
    }
  }

  lemma RemoveFirstOfPrefixed(prefix: string, rest: string)
    ensures RemoveFirst(prefix + rest, prefix) == rest
  {
    assert (prefix + rest)[0..|prefix|] == prefix;
  }

  /** A resumed bucket scan in sorted keys reads, in order and without gaps,
      keys strictly above the seek key; a cursor built as `prefix + key`
      seeks exactly `key`. When `key` is still in the bucket no key above it
      is skipped, and the scan ends before the last key only at a key that
      does not parse. */
  lemma ResumedBucketReadsAfterCursor(env: Env, store: Store, name: string, prefix: string, key: string)
    requires name in store.buckets && StrictlySorted(store.buckets[name])
    ensures var keys := store.buckets[name];
      var evs := BucketEvents(env, store, name, prefix, Some(RemoveFirst(prefix + key, prefix)));
      var start := ResumeIndex(keys, key);
      && (forall k :: 0 <= k < |evs| ==> start + k < |keys| && evs[k].key == prefix + keys[start + k] && Less(key, keys[start + k]))
      && (key in keys ==> forall j :: 0 <= j < |keys| && Less(key, keys[j]) ==> start <= j)
      && (|evs| == |keys| - start || (|evs| > 0 && env.parseAddress(evs[|evs| - 1].key).None?))
  {
    var keys := store.buckets[name];
    var start := ResumeIndex(keys, key);
    RemoveFirstOfPrefixed(prefix, key);
    var evs := KeyEvents(env, keys, prefix, start);
    assert BucketEvents(env, store, name, prefix, Some(RemoveFirst(prefix + key, prefix))) == evs;
    ResumeStartsAfterSeekKey(keys, key);
    KeyEventsShape(env, keys, prefix, start);
    forall k | 0 <= k < |evs|
      ensures start + k < |keys| && evs[k].key == prefix + keys[start + k] && Less(key, keys[start + k])
    {
    }
  }
}
