/**
 * The last-modified reconciliation job: for every queued file URI it asks
 * the API for the per-locale last-modified times, keeps the submissions
 * whose stored time differs, stores them and runs a status check that
 * enqueues the completed ones for download.
 */
module LastModifiedCheckJob {
  import opened Wrappers
  import opened OrderedMap

  /** The fields of a submission this job reads or writes; times are Unix timestamps. */
  datatype Submission = Submission(id: nat, sourceBlogId: nat, targetBlogId: nat, lastModified: int, completionPercentage: int)

  /** What the job does to the outside world, in order. */
  datatype Event =
    | Stored(submissions: seq<Submission>)
    | Enqueued(id: nat)
    | LastModifiedFailed(fileUri: string)
    | StatusCheckFailed(fileUri: string)

  /**
   * The job's collaborators. `localeOf` is the settings lookup of a
   * submission's Smartling locale; `lastModified` and `statusForAllLocales`
   * are API calls whose `None` is a network exception; `lastModified`
   * receives `reset($submissions)`, which is `None` for an empty list.
   */
  datatype Env = Env(
    localeOf: Submission -> string,
    findByIds: seq<nat> -> seq<Submission>,
    lastModified: Option<Submission> -> Option<seq<Pair<int>>>,
    statusForAllLocales: seq<Pair<Submission>> -> Option<seq<Submission>>,
    store: seq<Submission> -> seq<Submission>)

  /** The values of an ordered array, in order. */
  function Values<V>(m: seq<Pair<V>>): (r: seq<V>)
    ensures |r| == |m| && forall i :: 0 <= i < |m| ==> r[i] == m[i].val
  {
    seq(|m|, i requires 0 <= i < |m| => m[i].val)
  }

  // ----- prepareSubmissionList -----

  /** The `foreach` of `prepareSubmissionList` from `out` on: each submission is assigned under its locale. */
  function PrepareFrom(out: seq<Pair<Submission>>, list: seq<Submission>, localeOf: Submission -> string): (r: seq<Pair<Submission>>)
    ensures UniqueKeys(out) ==> UniqueKeys(r)
    ensures |r| <= |out| + |list|
    ensures forall p :: p in r ==> p in out || p.val in list
    decreases |list|
  {
    if list == [] then out
    else
      var out' := Assign(out, localeOf(list[0]), list[0]);
      AssignPairs(out, localeOf(list[0]), list[0]);
      assert UniqueKeys(out) ==> UniqueKeys(out') by {
        if UniqueKeys(out) { AssignUnique(out, localeOf(list[0]), list[0]); }
      }
      assert |out'| <= |out| + 1;
      var r := PrepareFrom(out', list[1..], localeOf);
      assert forall s :: s in list[1..] ==> s in list;
      r
  }

  /** `prepareSubmissionList($list)`: the submissions keyed by their Smartling locale. */
  function PrepareSubmissionList(list: seq<Submission>, localeOf: Submission -> string): (r: seq<Pair<Submission>>)
    ensures UniqueKeys(r)
    ensures |r| <= |list|
    ensures forall p :: p in r ==> p.val in list && p.key == localeOf(p.val)
  {
    var r := PrepareFrom([], list, localeOf);
    PrepareKeys([], list, localeOf);
    r
  }

  lemma {:induction false} PrepareKeys(out: seq<Pair<Submission>>, list: seq<Submission>, localeOf: Submission -> string)
    requires forall p :: p in out ==> p.key == localeOf(p.val)
    ensures forall p :: p in PrepareFrom(out, list, localeOf) ==> p.key == localeOf(p.val)
    decreases |list|
  {
    if list != [] {
      AssignPairs(out, localeOf(list[0]), list[0]);
      PrepareKeys(Assign(out, localeOf(list[0]), list[0]), list[1..], localeOf);
    }
  }

  /** The last submission of the list with locale `k`, if any. */
  function LastWithLocale(list: seq<Submission>, localeOf: Submission -> string, k: string): (r: Option<Submission>)
    ensures r.Some? ==> r.value in list && localeOf(r.value) == k
    decreases |list|
  {
    if list == [] then None
    else if localeOf(list[|list| - 1]) == k then Some(list[|list| - 1])
    else LastWithLocale(list[..|list| - 1], localeOf, k)
  }

  lemma {:induction false} PrepareFromSnoc(out: seq<Pair<Submission>>, list: seq<Submission>, s: Submission, localeOf: Submission -> string)
    ensures PrepareFrom(out, list + [s], localeOf) == Assign(PrepareFrom(out, list, localeOf), localeOf(s), s)
    decreases |list|
  {
    if list == [] {
      assert [] + [s] == [s];
    } else {
      assert (list + [s])[1..] == list[1..] + [s];
      PrepareFromSnoc(Assign(out, localeOf(list[0]), list[0]), list[1..], s, localeOf);
    }
  }

  /** A later submission with the same locale overwrites an earlier one: every locale holds the last submission that has it. */
  lemma {:induction false} PrepareLastWins(list: seq<Submission>, localeOf: Submission -> string, k: string)
    ensures Lookup(PrepareSubmissionList(list, localeOf), k) == LastWithLocale(list, localeOf, k)
    decreases |list|
  {
    if list != [] {
      var init := list[..|list| - 1];
      var s := list[|list| - 1];
      assert init + [s] == list;
      PrepareFromSnoc([], init, s, localeOf);
      PrepareLastWins(init, localeOf, k);
      if localeOf(s) != k {
        AssignOther(PrepareFrom([], init, localeOf), localeOf(s), s, k);
      }
    }
  }

  // ----- filterSubmissions -----

  /** The submission, with the response's time, when that time differs from its stored one. */
  predicate Outdated(response: Pair<int>, submissions: seq<Pair<Submission>>) {
    HasKey(submissions, response.key) && Get(submissions, response.key).lastModified != response.val
  }

  function Touched(response: Pair<int>, submissions: seq<Pair<Submission>>): Submission
    requires HasKey(submissions, response.key)
  {
    Get(submissions, response.key).(lastModified := response.val)
  }

  /** The `foreach ($lastModifiedResponse ...)` of `filterSubmissions`, from `acc` on. */
  function FilterFrom(acc: seq<Pair<Submission>>, response: seq<Pair<int>>, submissions: seq<Pair<Submission>>): seq<Pair<Submission>>
    decreases |response|
  {
    if response == [] then acc
    else
      var acc' := if Outdated(response[0], submissions)
        then Assign(acc, response[0].key, Touched(response[0], submissions)) else acc;
      FilterFrom(acc', response[1..], submissions)
  }

  /**
   * `filterSubmissions($response, $submissions)`: the submissions whose
   * locale the response lists with a different time, keyed by locale, with
   * their time set to the response's.
   */
  function FilterSubmissions(response: seq<Pair<int>>, submissions: seq<Pair<Submission>>): seq<Pair<Submission>> {
    FilterFrom([], response, submissions)
  }

  /** Reference definition: the outdated response entries, in response order, with their touched submissions. */
  function OutdatedEntries(response: seq<Pair<int>>, submissions: seq<Pair<Submission>>): (r: seq<Pair<Submission>>)
    ensures IsSubseq(Keys(r), Keys(response))
    ensures forall k :: HasKey(r, k) ==> HasKey(response, k)
    decreases |response|
  {
    if response == [] then []
    else
      var rest := OutdatedEntries(response[1..], submissions);
      assert Keys(response)[1..] == Keys(response[1..]);
      var r := if Outdated(response[0], submissions)
        then [Pair(response[0].key, Touched(response[0], submissions))] + rest else rest;
      assert IsSubseq(Keys(r), Keys(response)) by {
        if Outdated(response[0], submissions) {
          assert Keys(r)[0] == Keys(response)[0];
          assert Keys(r)[1..] == Keys(rest);
        }
      }
      forall k | HasKey(r, k) ensures HasKey(response, k) {
        if k != response[0].key {
          assert r == rest || r[1..] == rest;
          assert Lookup(r, k) == Lookup(rest, k);
          assert HasKey(rest, k);
          assert HasKey(response[1..], k);
          assert Lookup(response, k) == Lookup(response[1..], k);
        } else {
          assert Lookup(response, k) == Some(response[0].val);
        }
      }
      r
  }

  /** On a response with unique locales (a PHP array) the loop yields exactly the outdated entries, in response order. */
  lemma {:induction false} FilterFromIsOutdated(acc: seq<Pair<Submission>>, response: seq<Pair<int>>, submissions: seq<Pair<Submission>>)
    requires UniqueKeys(response)
    requires forall i :: 0 <= i < |response| ==> !HasKey(acc, response[i].key)
    ensures FilterFrom(acc, response, submissions) == acc + OutdatedEntries(response, submissions)
    decreases |response|
  {
    if response != [] {
      UniqueTail(response);
      var rest := response[1..];
      if Outdated(response[0], submissions) {
        var x := Pair(response[0].key, Touched(response[0], submissions));
        var acc' := Assign(acc, x.key, x.val);
        assert acc' == acc + [x];
        FreshAfter(acc, x, rest);
        FilterFromIsOutdated(acc', rest, submissions);
        assert OutdatedEntries(response, submissions) == [x] + OutdatedEntries(rest, submissions);
        assert FilterFrom(acc, response, submissions) == FilterFrom(acc', rest, submissions);
        assert acc' + OutdatedEntries(rest, submissions) == acc + ([x] + OutdatedEntries(rest, submissions));
      } else {
        forall i | 0 <= i < |rest| ensures !HasKey(acc, rest[i].key) {
          assert rest[i] == response[i + 1];
        }
        FilterFromIsOutdated(acc, rest, submissions);
      }
    }
  }

  /** The keys after the first stay absent once the first is appended. */
  lemma {:induction false} FreshAfter<V, W>(acc: seq<Pair<V>>, x: Pair<V>, rest: seq<Pair<W>>)
    requires x.key !in Keys(rest)
    requires forall i :: 0 <= i < |rest| ==> !HasKey(acc, rest[i].key)
    ensures forall i :: 0 <= i < |rest| ==> !HasKey(acc + [x], rest[i].key)
  {
    forall i | 0 <= i < |rest| ensures !HasKey(acc + [x], rest[i].key) {
      assert Keys(rest)[i] == rest[i].key;
      LookupAppend(acc, x, rest[i].key);
    }
  }

  /**
   * What `filterSubmissions` keeps: a locale is in the result iff the
   * response lists it, a submission has it and their times differ; its
   * value is that submission with the response's time.
   */
  lemma {:induction false} FilterSubmissionsLookup(response: seq<Pair<int>>, submissions: seq<Pair<Submission>>, k: string)
    requires UniqueKeys(response)
    ensures HasKey(FilterSubmissions(response, submissions), k) <==>
      HasKey(response, k) && HasKey(submissions, k) && Get(submissions, k).lastModified != Get(response, k)
    ensures HasKey(FilterSubmissions(response, submissions), k) ==>
      Get(FilterSubmissions(response, submissions), k) == Get(submissions, k).(lastModified := Get(response, k))
  {
    FilterFromIsOutdated([], response, submissions);
    assert FilterSubmissions(response, submissions) == OutdatedEntries(response, submissions);
    OutdatedLookup(response, submissions, k);
  }

  lemma {:induction false} OutdatedLookup(response: seq<Pair<int>>, submissions: seq<Pair<Submission>>, k: string)
    requires UniqueKeys(response)
    ensures Lookup(OutdatedEntries(response, submissions), k) ==
      if HasKey(response, k) && Outdated(Pair(k, Get(response, k)), submissions)
      then Some(Touched(Pair(k, Get(response, k)), submissions)) else None
    decreases |response|
  {
    if response != [] {
      UniqueTail(response);
      var rest := OutdatedEntries(response[1..], submissions);
      OutdatedLookup(response[1..], submissions, k);
      if response[0].key == k {
        assert Get(response, k) == response[0].val;
        assert !HasKey(rest, k) by {
          HasKeyIsKeysMember(response[1..], k);
        }
      } else {
        assert Lookup(response, k) == Lookup(response[1..], k);
      }
    }
  }

  /** The result keeps the response's order. */
  lemma FilterSubmissionsOrder(response: seq<Pair<int>>, submissions: seq<Pair<Submission>>)
    requires UniqueKeys(response)
    ensures IsSubseq(Keys(FilterSubmissions(response, submissions)), Keys(response))
  {
    FilterFromIsOutdated([], response, submissions);
    assert FilterSubmissions(response, submissions) == OutdatedEntries(response, submissions);
  }

  // ----- storing, checking, enqueuing -----

  /** `storeSubmissions($submissions)`: the manager stores and returns them, and is called only for a non-empty list. */
  function StoreSubmissions(submissions: seq<Submission>, env: Env): (r: (seq<Submission>, seq<Event>))
    ensures submissions == [] ==> r == ([], [])
    ensures submissions != [] ==> r == (env.store(submissions), [Stored(submissions)])
  {
    if |submissions| > 0 then (env.store(submissions), [Stored(submissions)]) else (submissions, [])
  }

  /** `checkEntityForDownload($entity)`: the id goes to the download queue iff completion is exactly 100. */
  function CheckEntityForDownload(s: Submission): (r: seq<Event>)
    ensures s.completionPercentage == 100 ==> r == [Enqueued(s.id)]
    ensures s.completionPercentage != 100 ==> r == []
  {
    if s.completionPercentage == 100 then [Enqueued(s.id)] else []
  }

  /** The download checks of a list of submissions, in order. */
  function CheckAll(ss: seq<Submission>): (r: seq<Event>)
    ensures forall e :: e in r ==> e.Enqueued?
    decreases |ss|
  {
    if ss == [] then [] else CheckEntityForDownload(ss[0]) + CheckAll(ss[1..])
  }

  /** The ids `CheckAll` enqueues are exactly those of the complete submissions. */
  lemma {:induction false} CheckAllEnqueues(ss: seq<Submission>, id: nat)
    ensures Enqueued(id) in CheckAll(ss) <==> exists i :: 0 <= i < |ss| && ss[i].id == id && ss[i].completionPercentage == 100
    decreases |ss|
  {
    if ss != [] {
      CheckAllEnqueues(ss[1..], id);
      assert forall i :: 0 < i < |ss| ==> ss[i] == ss[1..][i - 1];
      if ss[0].id == id && ss[0].completionPercentage == 100 {
        assert Enqueued(id) in CheckAll(ss);
      }
      if exists i :: 0 < i < |ss| && ss[i].id == id && ss[i].completionPercentage == 100 {
        var i :| 0 < i < |ss| && ss[i].id == id && ss[i].completionPercentage == 100;
        assert ss[1..][i - 1] == ss[i];
      }
    }
  }

  /**
   * `statusCheck($submissions)`: the submissions keyed by locale, their
   * status fetched (or a network error), stored, and the complete ones
   * enqueued.
   */
  function StatusCheck(submissions: seq<Submission>, env: Env): (r: Option<seq<Event>>)
    ensures r.None? <==> env.statusForAllLocales(PrepareSubmissionList(submissions, env.localeOf)).None?
    ensures var status := env.statusForAllLocales(PrepareSubmissionList(submissions, env.localeOf));
      r.Some? ==> |r.value| >= 1 && r.value[0] == Stored(status.value) && forall e :: e in r.value[1..] ==> e.Enqueued?
    ensures var status := env.statusForAllLocales(PrepareSubmissionList(submissions, env.localeOf));
      r.Some? ==> forall id :: Enqueued(id) in r.value <==>
        exists i :: 0 <= i < |env.store(status.value)| && env.store(status.value)[i].id == id && env.store(status.value)[i].completionPercentage == 100
  {
    var status :- env.statusForAllLocales(PrepareSubmissionList(submissions, env.localeOf));
    var checked := env.store(status);
    var r := [Stored(status)] + CheckAll(checked);
    assert r[1..] == CheckAll(checked);
    forall id ensures Enqueued(id) in r <==> Enqueued(id) in CheckAll(checked) {
      assert Enqueued(id) != Stored(status);
    }
    forall id ensures Enqueued(id) in CheckAll(checked) <==>
      exists i :: 0 <= i < |checked| && checked[i].id == id && checked[i].completionPercentage == 100 {
      CheckAllEnqueues(checked, id);
    }
    Some(r)
  }

  /** `reset($list)`. */
  function First(list: seq<Submission>): Option<Submission> {
    if list == [] then None else Some(list[0])
  }

  /**
   * One iteration of the inner `foreach` of `lastModifiedCheck`: the
   * submissions of `fileUri` are filtered by last-modified time, stored,
   * and status-checked when any are left. A network error ends the
   * iteration for this file URI only.
   */
  function FileUriEvents(fileUri: string, ids: seq<nat>, env: Env): (r: seq<Event>)
    ensures env.lastModified(First(env.findByIds(ids))).None? ==> r == [LastModifiedFailed(fileUri)]
    ensures env.lastModified(First(env.findByIds(ids))).Some? ==>
      r == ResponseEvents(fileUri, env.findByIds(ids), env.lastModified(First(env.findByIds(ids))).value, env)
  {
    var list := env.findByIds(ids);
    match env.lastModified(First(list))
    case None => [LastModifiedFailed(fileUri)]
    case Some(response) => ResponseEvents(fileUri, list, response, env)
  }

  /**
   * The rest of the iteration once the last-modified response has arrived:
   * the outdated submissions are stored when there are any; the stored
   * ones, when there are any, are status-checked; a failed status request
   * is recorded for this file URI.
   */
  function ResponseEvents(fileUri: string, list: seq<Submission>, response: seq<Pair<int>>, env: Env): (r: seq<Event>)
    ensures var outdated := Values(FilterSubmissions(response, PrepareSubmissionList(list, env.localeOf)));
      outdated == [] ==> r == []
    ensures var outdated := Values(FilterSubmissions(response, PrepareSubmissionList(list, env.localeOf)));
      outdated != [] ==> |r| >= 1 && r[0] == Stored(outdated)
    ensures var outdated := Values(FilterSubmissions(response, PrepareSubmissionList(list, env.localeOf)));
      |r| > 1 <==> outdated != [] && env.store(outdated) != []
    ensures var outdated := Values(FilterSubmissions(response, PrepareSubmissionList(list, env.localeOf)));
      outdated != [] && env.store(outdated) != [] ==>
        (r[1..] == [StatusCheckFailed(fileUri)] <==>
          env.statusForAllLocales(PrepareSubmissionList(env.store(outdated), env.localeOf)).None?)
    ensures var outdated := Values(FilterSubmissions(response, PrepareSubmissionList(list, env.localeOf)));
      outdated != [] && env.store(outdated) != [] ==>
        env.statusForAllLocales(PrepareSubmissionList(env.store(outdated), env.localeOf)).Some? ==>
          r[1..] == StatusCheck(env.store(outdated), env).value
    ensures StatusCheckFailed(fileUri) in r ==> r == [r[0], StatusCheckFailed(fileUri)]
  {
    var filtered := FilterSubmissions(response, PrepareSubmissionList(list, env.localeOf));
    var (stored, events) := StoreSubmissions(Values(filtered), env);
    if |stored| == 0 then events
    else match StatusCheck(stored, env)
      case None => events + [StatusCheckFailed(fileUri)]
      case Some(checked) => events + checked
  }

  /** `f` applied to every element, the results concatenated in order. */
  function ConcatMap<A, B>(f: A -> seq<B>, xs: seq<A>): seq<B>
    decreases |xs|
  {
    if xs == [] then [] else f(xs[0]) + ConcatMap(f, xs[1..])
  }

  lemma {:induction false} ConcatMapAppend<A, B>(f: A -> seq<B>, a: seq<A>, b: seq<A>)
    ensures ConcatMap(f, a + b) == ConcatMap(f, a) + ConcatMap(f, b)
    decreases |a|
  {
    if a == [] {
      assert [] + b == b;
    } else {
      assert (a + b)[0] == a[0] && (a + b)[1..] == a[1..] + b;
      ConcatMapAppend(f, a[1..], b);
    }
  }

  /** One file URI entry's events. */
  function FileUriEventsOf(env: Env): Pair<seq<nat>> -> seq<Event> {
    (p: Pair<seq<nat>>) => FileUriEvents(p.key, p.val, env)
  }

  /** Reference: the events of every file URI of a dequeued batch, in order. */
  function BatchEvents(batch: seq<Pair<seq<nat>>>, env: Env): seq<Event> {
    ConcatMap(FileUriEventsOf(env), batch)
  }

  function JobEvents(batches: seq<seq<Pair<seq<nat>>>>, env: Env): seq<Event>
    decreases |batches|
  {
    if batches == [] then [] else BatchEvents(batches[0], env) + JobEvents(batches[1..], env)
  }

  lemma BatchEventsSnoc(batch: seq<Pair<seq<nat>>>, x: Pair<seq<nat>>, env: Env)
    ensures BatchEvents(batch + [x], env) == BatchEvents(batch, env) + FileUriEvents(x.key, x.val, env)
  {
    var f := FileUriEventsOf(env);
    ConcatMapAppend(f, batch, [x]);
    assert [x][1..] == [];
    assert ConcatMap(f, [x]) == f(x);
  }

  /** The events of the first `j + 1` files of a batch. */
  lemma BatchEventsStep(batch: seq<Pair<seq<nat>>>, j: nat, env: Env)
    requires j < |batch|
    ensures BatchEvents(batch[..j + 1], env) == BatchEvents(batch[..j], env) + FileUriEvents(batch[j].key, batch[j].val, env)
  {
    BatchEventsSnoc(batch[..j], batch[j], env);
    assert batch[..j + 1] == batch[..j] + [batch[j]];
  }

  lemma {:induction false} JobEventsSnoc(batches: seq<seq<Pair<seq<nat>>>>, b: seq<Pair<seq<nat>>>, env: Env)
    ensures JobEvents(batches + [b], env) == JobEvents(batches, env) + BatchEvents(b, env)
    decreases |batches|
  {
    if batches == [] {
      assert [] + [b] == [b];
    } else {
      assert (batches + [b])[1..] == batches[1..] + [b];
      JobEventsSnoc(batches[1..], b, env);
    }
  }

  /**
   * `lastModifiedCheck()`: drains the dequeued batches (given here in
   * dequeue order) and processes each file URI; the trace is the
   * concatenation of the file URIs' own events, so an error for one file URI
   * neither stops the loop nor affects the others.
   */
  method LastModifiedCheck(batches: seq<seq<Pair<seq<nat>>>>, env: Env) returns (trace: seq<Event>)
    ensures trace == JobEvents(batches, env)
  {
    trace := [];
    var b := 0;
    while b < |batches|
      invariant 0 <= b <= |batches|
      invariant trace == JobEvents(batches[..b], env)
    {
      var events := ProcessBatch(batches[b], env);
      JobEventsSnoc(batches[..b], batches[b], env);
      assert batches[..b + 1] == batches[..b] + [batches[b]];
      trace := trace + events;
      b := b + 1;
    }
    assert batches[..b] == batches;
  }

  /** The `foreach ($serializedPair as $fileUri => $ids)` of one dequeued batch. */
  method ProcessBatch(batch: seq<Pair<seq<nat>>>, env: Env) returns (events: seq<Event>)
    ensures events == BatchEvents(batch, env)
  {
    events := [];
    var j := 0;
    while j < |batch|
      invariant 0 <= j <= |batch|
      invariant events == BatchEvents(batch[..j], env)
    {
      BatchEventsStep(batch, j, env);
      events := events + FileUriEvents(batch[j].key, batch[j].val, env);
      j := j + 1;
    }
    assert batch[..j] == batch;
  }

  /** A network error for one file URI contributes only its error; the file URIs after it are processed as usual. */
  lemma ErrorSkipsOnlyItsFileUri(before: seq<Pair<seq<nat>>>, x: Pair<seq<nat>>, after: seq<Pair<seq<nat>>>, env: Env)
    requires env.lastModified(First(env.findByIds(x.val))).None?
    ensures BatchEvents(before + [x] + after, env) == BatchEvents(before, env) + [LastModifiedFailed(x.key)] + BatchEvents(after, env)
  {
    var f := FileUriEventsOf(env);
    var rest := [x] + after;
    assert before + [x] + after == before + rest;
    ConcatMapAppend(f, before, rest);
    assert rest[0] == x && rest[1..] == after;
    assert f(x) == [LastModifiedFailed(x.key)];
    assert ConcatMap(f, rest) == [LastModifiedFailed(x.key)] + ConcatMap(f, after);
    SeqAssoc(ConcatMap(f, before), [LastModifiedFailed(x.key)], ConcatMap(f, after));
  }

  lemma SeqAssoc<T>(a: seq<T>, b: seq<T>, c: seq<T>)
    ensures a + (b + c) == (a + b) + c
  {
  }
}
