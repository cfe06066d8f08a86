/** The helper library of the geoprocessing scripts (Helper.py): the scratch
    message, best-effort deletion of scratch data, geometry cleaning with its
    bounded retry loop, clip/erase followed by cleaning, the sorted distinct
    values of a field, a two-field table as a dictionary, and the elapsed-time
    text.

    Every call into the geoprocessing engine is recorded as a Call in the
    order the script issues it; the one outcome the script reacts to, whether
    a multipart-to-singlepart conversion succeeds, is given as an oracle. */
module Helper {
  import opened Text

  /** The engine's name for its in-memory workspace. */
  const InMemory: string := "in_memory"

  /** os.sep: the scripts target ArcGIS Desktop 10.3, which runs on Windows. */
  const Sep: string := "\\"

  const StoredHerePrefix: string := "Scratch outputs will be stored here: "

  const InMemoryWarning: string :=
    "Scratch products " + "are being stored in memory and will not persist. "
    + "If processing fails inexplicably, or if you want to be able to inspect scratch products, "
    + "try running this with a specified scratchGDB on disk."

  /** getScratchMsg: the fixed in-memory warning exactly for the in-memory
      workspace, and otherwise a message that ends with the workspace path. */
  function ScratchMsg(scratchGDB: string): (msg: string)
    ensures msg == InMemoryWarning <==> scratchGDB == InMemory
    ensures scratchGDB != InMemory ==> StoredHerePrefix <= msg && msg[|StoredHerePrefix|..] == scratchGDB
  {
    if scratchGDB != InMemory then
      var msg := StoredHerePrefix + scratchGDB;
      assert msg[8] == 'o' && InMemoryWarning[8] == 'p';
      assert msg[|StoredHerePrefix|..] == scratchGDB;
      msg
    else
      InMemoryWarning
  }

  // ---------------------------------------------------------------------
  // Calls into the geoprocessing engine

  datatype Call =
    | RepairGeometry(features: string)          // RepairGeometry_management(_, "DELETE_NULL")
    | MultipartToSinglepart(input: string, output: string)
    | CopyFeatures(input: string, output: string)
    | Clip(input: string, clipFeatures: string, output: string)
    | Erase(input: string, eraseFeatures: string, output: string)
    | Delete(dataset: string)
    | AddMessage(text: string)

  /** How many times CleanFeatures tries to explode multipart polygons. */
  const MaxTries: nat := 10

  const ExplosionFailedMsg: string := "Polygon explosion failed."
  const GiveUpMsg: string := "Polygon explosion problem could not be resolved.  Copying features."

  const RetryPrefix: string := "Trying to repair geometry (try # "

  function RetryMsg(counter: nat): string {
    RetryPrefix + FromNat(counter) + ")"
  }

  /** The message before repair number `counter` is the fixed prefix, then
      str(counter) and a closing parenthesis: the number reads back from it. */
  lemma RetryMsgNumber(counter: nat)
    ensures RetryPrefix <= RetryMsg(counter)
    ensures ReadNat(RetryMsg(counter)[|RetryPrefix|..]) == Some((counter, ")"))
  {
    var msg := RetryMsg(counter);
    assert msg[|RetryPrefix|..] == FromNat(counter) + ")";
    ReadNatFromNat(counter, ")");
  }

  /** garbagePickup: one Delete per list element, once each and in list
      order. Whatever a delete raises is swallowed, so its outcome is no input
      of the model: a failure neither stops the loop nor reaches the caller,
      which gets no result at all. */
  method GarbagePickup(trashList: seq<string>) returns (calls: seq<Call>)
    ensures |calls| == |trashList|
    ensures forall i :: 0 <= i < |trashList| ==> calls[i] == Delete(trashList[i])
  {
    calls := [];
    for i := 0 to |trashList|
      invariant |calls| == i
      invariant forall j :: 0 <= j < i ==> calls[j] == Delete(trashList[j])
    {
      calls := calls + [Delete(trashList[i])];
    }
  }

  /** The 1-based attempt at which the conversion first succeeds, looking
      from attempt `from` on; MaxTries + 1 when every attempt up to MaxTries
      fails. explodes(k) is the outcome of the k-th MultipartToSinglepart. */
  function FirstSuccess(explodes: nat -> bool, from: nat): (k: nat)
    requires 1 <= from <= MaxTries + 1
    ensures from <= k <= MaxTries + 1
    ensures forall j :: from <= j < k ==> !explodes(j)
    ensures k <= MaxTries ==> explodes(k)
    decreases MaxTries + 1 - from
  {
    if from > MaxTries || explodes(from) then from else FirstSuccess(explodes, from + 1)
  }

  /** The calls of one failed attempt number j. */
  function FailedAttempt(inFeats: string, outFeats: string, j: nat): seq<Call> {
    [MultipartToSinglepart(inFeats, outFeats), AddMessage(ExplosionFailedMsg),
     AddMessage(RetryMsg(j)), RepairGeometry(inFeats)]
  }

  /** The calls of failed attempts 1 to n, in order. */
  function FailedAttempts(inFeats: string, outFeats: string, n: nat): (calls: seq<Call>)
    ensures |calls| == 4 * n
  {
    if n == 0 then [] else FailedAttempts(inFeats, outFeats, n - 1) + FailedAttempt(inFeats, outFeats, n)
  }

  /** What CleanFeatures does, in closed form: an initial repair, then every
      failed attempt before the first success, then either the successful
      conversion or, when all MaxTries attempts failed, a plain copy. */
  function CleanFeaturesTrace(inFeats: string, outFeats: string, explodes: nat -> bool): seq<Call> {
    var k := FirstSuccess(explodes, 1);
    [RepairGeometry(inFeats)] + FailedAttempts(inFeats, outFeats, k - 1)
    + if k <= MaxTries then [MultipartToSinglepart(inFeats, outFeats)]
      else [AddMessage(GiveUpMsg), CopyFeatures(inFeats, outFeats)]
  }

  /** CleanFeatures: repairs, then tries MultipartToSinglepart up to MaxTries
      times with a repair after each failure, copies the features when every
      try failed, and returns outFeats. */
  method CleanFeatures(inFeats: string, outFeats: string, explodes: nat -> bool)
    returns (result: string, calls: seq<Call>)
    ensures result == outFeats
    ensures calls == CleanFeaturesTrace(inFeats, outFeats, explodes)
  {
    calls := [RepairGeometry(inFeats)];
    var counter: nat := 1;
    while counter <= MaxTries
      invariant 1 <= counter <= MaxTries + 1
      invariant counter <= MaxTries ==> forall j :: 1 <= j < counter ==> !explodes(j)
      invariant counter <= MaxTries ==> calls == [RepairGeometry(inFeats)] + FailedAttempts(inFeats, outFeats, counter - 1)
      invariant counter == MaxTries + 1 ==> calls == CleanFeaturesTrace(inFeats, outFeats, explodes)
      decreases MaxTries + 1 - counter
    {
      calls := calls + [MultipartToSinglepart(inFeats, outFeats)];
      if explodes(counter) {
        assert FirstSuccess(explodes, 1) == counter;
        counter := MaxTries + 1;
      } else {
        calls := calls + [AddMessage(ExplosionFailedMsg), AddMessage(RetryMsg(counter)), RepairGeometry(inFeats)];
        counter := counter + 1;
        if counter == MaxTries + 1 {
          assert FirstSuccess(explodes, 1) == MaxTries + 1;
          calls := calls + [AddMessage(GiveUpMsg), CopyFeatures(inFeats, outFeats)];
        }
      }
    }
    result := outFeats;
  }

  // ---------------------------------------------------------------------
  // Counting the calls of a trace

  function Count(calls: seq<Call>, p: Call -> bool): nat {
    if calls == [] then 0
    else Count(calls[..|calls| - 1], p) + Indicator(p(calls[|calls| - 1]))
  }

  predicate IsRepair(c: Call) { c.RepairGeometry? }
  predicate IsExplosion(c: Call) { c.MultipartToSinglepart? }
  predicate IsCopy(c: Call) { c.CopyFeatures? }
  predicate IsDelete(c: Call) { c.Delete? }

  lemma {:induction false} CountAppend(a: seq<Call>, b: seq<Call>, p: Call -> bool)
    ensures Count(a + b, p) == Count(a, p) + Count(b, p)
  {
    if b == [] {
      assert a + b == a;
    } else {
      var front := b[..|b| - 1];
      assert (a + b)[..|a + b| - 1] == a + front;
      CountAppend(a, front, p);
    }
  }

  function Indicator(b: bool): nat { if b then 1 else 0 }

  lemma CountFour(w: Call, x: Call, y: Call, z: Call, p: Call -> bool)
    ensures Count([w, x, y, z], p) == Indicator(p(w)) + Indicator(p(x)) + Indicator(p(y)) + Indicator(p(z))
  {
    assert [w, x, y, z] == [w] + [x] + ([y] + [z]);
    CountAppend3([w], [x], [y] + [z], p);
    CountAppend([y], [z], p);
    CountSingleton(w, p);
    CountSingleton(x, p);
    CountSingleton(y, p);
    CountSingleton(z, p);
  }

  lemma FailedAttemptCounts(inFeats: string, outFeats: string, j: nat)
    ensures Count(FailedAttempt(inFeats, outFeats, j), IsExplosion) == 1
    ensures Count(FailedAttempt(inFeats, outFeats, j), IsRepair) == 1
    ensures Count(FailedAttempt(inFeats, outFeats, j), IsCopy) == 0
    ensures Count(FailedAttempt(inFeats, outFeats, j), IsDelete) == 0
  {
    var w, x, y, z := MultipartToSinglepart(inFeats, outFeats), AddMessage(ExplosionFailedMsg),
                      AddMessage(RetryMsg(j)), RepairGeometry(inFeats);
    CountFour(w, x, y, z, IsExplosion);
    CountFour(w, x, y, z, IsRepair);
    CountFour(w, x, y, z, IsCopy);
    CountFour(w, x, y, z, IsDelete);
  }

  lemma {:induction false} FailedAttemptsCounts(inFeats: string, outFeats: string, n: nat)
    ensures Count(FailedAttempts(inFeats, outFeats, n), IsExplosion) == n
    ensures Count(FailedAttempts(inFeats, outFeats, n), IsRepair) == n
    ensures Count(FailedAttempts(inFeats, outFeats, n), IsCopy) == 0
    ensures Count(FailedAttempts(inFeats, outFeats, n), IsDelete) == 0
  {
    if n > 0 {
      var before := FailedAttempts(inFeats, outFeats, n - 1);
      var last := FailedAttempt(inFeats, outFeats, n);
      FailedAttemptsCounts(inFeats, outFeats, n - 1);
      FailedAttemptCounts(inFeats, outFeats, n);
      CountAppend(before, last, IsExplosion);
      CountAppend(before, last, IsRepair);
      CountAppend(before, last, IsCopy);
      CountAppend(before, last, IsDelete);
    }
  }

  lemma CountAppend3(a: seq<Call>, b: seq<Call>, c: seq<Call>, p: Call -> bool)
    ensures Count(a + b + c, p) == Count(a, p) + Count(b, p) + Count(c, p)
  {
    CountAppend(a, b, p);
    CountAppend(a + b, c, p);
  }

  lemma CountSingleton(c: Call, p: Call -> bool)
    ensures Count([c], p) == if p(c) then 1 else 0
  {
    assert [c][..0] == [];
  }

  /** The calls of CleanFeatures counted by kind, in terms of the first
      successful attempt. */
  lemma CleanFeaturesCounts(inFeats: string, outFeats: string, explodes: nat -> bool)
    ensures var calls := CleanFeaturesTrace(inFeats, outFeats, explodes);
      var first := FirstSuccess(explodes, 1);
      && Count(calls, IsExplosion) == (if first <= MaxTries then first else MaxTries)
      && Count(calls, IsRepair) == (if first <= MaxTries then first else MaxTries + 1)
      && Count(calls, IsCopy) == (if first <= MaxTries then 0 else 1)
      && Count(calls, IsDelete) == 0
  {
    var first := FirstSuccess(explodes, 1);
    var repair := [RepairGeometry(inFeats)];
    var failed := FailedAttempts(inFeats, outFeats, first - 1);
    var tail := if first <= MaxTries then [MultipartToSinglepart(inFeats, outFeats)]
                else [AddMessage(GiveUpMsg), CopyFeatures(inFeats, outFeats)];
    FailedAttemptsCounts(inFeats, outFeats, first - 1);
    assert CleanFeaturesTrace(inFeats, outFeats, explodes) == repair + failed + tail;
    CountAppend3(repair, failed, tail, IsExplosion);
    CountAppend3(repair, failed, tail, IsRepair);
    CountAppend3(repair, failed, tail, IsCopy);
    CountAppend3(repair, failed, tail, IsDelete);
    CountSingleton(RepairGeometry(inFeats), IsExplosion);
    CountSingleton(RepairGeometry(inFeats), IsRepair);
    CountSingleton(RepairGeometry(inFeats), IsCopy);
    CountSingleton(RepairGeometry(inFeats), IsDelete);
    if first <= MaxTries {
      CountSingleton(MultipartToSinglepart(inFeats, outFeats), IsExplosion);
      CountSingleton(MultipartToSinglepart(inFeats, outFeats), IsRepair);
      CountSingleton(MultipartToSinglepart(inFeats, outFeats), IsCopy);
      CountSingleton(MultipartToSinglepart(inFeats, outFeats), IsDelete);
    } else {
      assert tail[..1] == [AddMessage(GiveUpMsg)];
    }
  }

  /** When the conversion first succeeds on attempt k, CleanFeatures has made
      exactly k attempts and k repairs, has not copied, and stops with the
      successful conversion. */
  lemma CleanFeaturesSucceedsAt(inFeats: string, outFeats: string, explodes: nat -> bool, k: nat)
    requires 1 <= k <= MaxTries && explodes(k)
    requires forall j :: 1 <= j < k ==> !explodes(j)
    ensures var calls := CleanFeaturesTrace(inFeats, outFeats, explodes);
      && Count(calls, IsExplosion) == k && Count(calls, IsRepair) == k && Count(calls, IsCopy) == 0
      && |calls| == 4 * k - 2 && calls[|calls| - 1] == MultipartToSinglepart(inFeats, outFeats)
  {
    CleanFeaturesCounts(inFeats, outFeats, explodes);
    assert FirstSuccess(explodes, 1) == k;
  }

  /** CleanFeatures never makes more than MaxTries attempts; it copies the
      features exactly once when all MaxTries attempts fail, then after
      MaxTries attempts and MaxTries + 1 repairs, and never copies otherwise. */
  lemma CleanFeaturesFallback(inFeats: string, outFeats: string, explodes: nat -> bool)
    ensures var calls := CleanFeaturesTrace(inFeats, outFeats, explodes);
      && Count(calls, IsExplosion) <= MaxTries
      && Count(calls, IsCopy) <= 1
      && (Count(calls, IsCopy) == 1 <==> forall j :: 1 <= j <= MaxTries ==> !explodes(j))
      && ((forall j :: 1 <= j <= MaxTries ==> !explodes(j)) ==>
            && Count(calls, IsExplosion) == MaxTries && Count(calls, IsRepair) == MaxTries + 1
            && |calls| == 4 * MaxTries + 3 && calls[|calls| - 1] == CopyFeatures(inFeats, outFeats))
  {
    CleanFeaturesCounts(inFeats, outFeats, explodes);
  }

  // ---------------------------------------------------------------------
  // CleanClip and CleanErase

  /** CleanClip: clips into a temporary dataset named tmpClip in the scratch
      workspace, cleans that into outFeats, and deletes the temporary
      dataset only when the scratch workspace is the in-memory one. */
  method CleanClip(inFeats: string, clipFeats: string, outFeats: string, explodes: nat -> bool,
                   scratchGDB: string := InMemory)
    returns (result: string, calls: seq<Call>)
    ensures result == outFeats
    ensures var tmpClip := scratchGDB + Sep + "tmpClip";
      calls == [Clip(inFeats, clipFeats, tmpClip)] + CleanFeaturesTrace(tmpClip, outFeats, explodes)
               + if scratchGDB == InMemory then [Delete(tmpClip)] else []
    ensures Count(calls, IsDelete) == if scratchGDB == InMemory then 1 else 0
  {
    var tmpClip := scratchGDB + Sep + "tmpClip";
    calls := [Clip(inFeats, clipFeats, tmpClip)];
    var _, cleaning := CleanFeatures(tmpClip, outFeats, explodes);
    calls := calls + cleaning;
    var pickup := [];
    if scratchGDB == InMemory {
      pickup := GarbagePickup([tmpClip]);
      assert pickup == [Delete(tmpClip)];
    }
    CleanupDeletes(Clip(inFeats, clipFeats, tmpClip), tmpClip, outFeats, explodes, pickup);
    CountSingleton(Delete(tmpClip), IsDelete);
    calls := calls + pickup;
    result := outFeats;
  }

  /** CleanErase: the same as CleanClip with Erase and a dataset named
      tmpErased. */
  method CleanErase(inFeats: string, eraseFeats: string, outFeats: string, explodes: nat -> bool,
                    scratchGDB: string := InMemory)
    returns (result: string, calls: seq<Call>)
    ensures result == outFeats
    ensures var tmpErased := scratchGDB + Sep + "tmpErased";
      calls == [Erase(inFeats, eraseFeats, tmpErased)] + CleanFeaturesTrace(tmpErased, outFeats, explodes)
               + if scratchGDB == InMemory then [Delete(tmpErased)] else []
    ensures Count(calls, IsDelete) == if scratchGDB == InMemory then 1 else 0
  {
    var tmpErased := scratchGDB + Sep + "tmpErased";
    calls := [Erase(inFeats, eraseFeats, tmpErased)];
    var _, cleaning := CleanFeatures(tmpErased, outFeats, explodes);
    calls := calls + cleaning;
    var pickup := [];
    if scratchGDB == InMemory {
      pickup := GarbagePickup([tmpErased]);
      assert pickup == [Delete(tmpErased)];
    }
    CleanupDeletes(Erase(inFeats, eraseFeats, tmpErased), tmpErased, outFeats, explodes, pickup);
    CountSingleton(Delete(tmpErased), IsDelete);
    calls := calls + pickup;
    result := outFeats;
  }

  /** The deletes of an overlay followed by a cleaning are those of the
      cleanup that follows them. */
  lemma CleanupDeletes(overlay: Call, inFeats: string, outFeats: string, explodes: nat -> bool, pickup: seq<Call>)
    requires !overlay.Delete?
    ensures Count([overlay] + CleanFeaturesTrace(inFeats, outFeats, explodes) + pickup, IsDelete)
            == Count(pickup, IsDelete)
  {
    var cleaning := CleanFeaturesTrace(inFeats, outFeats, explodes);
    CleanFeaturesCounts(inFeats, outFeats, explodes);
    CountSingleton(overlay, IsDelete);
    CountAppend([overlay], cleaning, IsDelete);
    CountAppend([overlay] + cleaning, pickup, IsDelete);
  }

  // ---------------------------------------------------------------------
  // unique_values

  predicate StrictlyIncreasing(s: seq<int>) {
    forall i, j :: 0 <= i < j < |s| ==> s[i] < s[j]
  }

  function Elements(s: seq<int>): set<int> {
    set x | x in s
  }

  lemma ElementsCons(h: int, t: seq<int>)
    ensures Elements([h] + t) == {h} + Elements(t)
  {
    assert forall y :: y in [h] + t <==> y == h || y in t;
  }

  /** A smaller head in front of a strictly increasing sequence keeps it
      strictly increasing. */
  lemma ConsIncreasing(h: int, t: seq<int>)
    requires StrictlyIncreasing(t)
    requires forall y :: y in Elements(t) ==> h < y
    ensures StrictlyIncreasing([h] + t)
  {
    var r := [h] + t;
    forall i, j | 0 <= i < j < |r| ensures r[i] < r[j] {
      assert r[j] == t[j - 1];
      assert t[j - 1] in Elements(t);
      if i > 0 {
        assert r[i] == t[i - 1];
      }
    }
  }

  /** Puts x into its place in an ascending sequence, unless it is there
      already. */
  function InsertSorted(x: int, s: seq<int>): seq<int> {
    if s == [] then [x]
    else if x < s[0] then [x] + s
    else if x == s[0] then s
    else [s[0]] + InsertSorted(x, s[1..])
  }

  /** Inserting into a strictly increasing sequence keeps it strictly
      increasing and adds exactly x to its elements. */
  lemma {:induction false} InsertSortedSpec(x: int, s: seq<int>)
    requires StrictlyIncreasing(s)
    ensures StrictlyIncreasing(InsertSorted(x, s))
    ensures Elements(InsertSorted(x, s)) == Elements(s) + {x}
  {
    if s == [] {
      assert Elements([x]) == {x} by { ElementsCons(x, []); }
    } else {
      var tail := s[1..];
      assert s == [s[0]] + tail;
      ElementsCons(s[0], tail);
      if x < s[0] {
        ElementsCons(x, s);
        ConsIncreasing(x, s);
      } else if x > s[0] {
        TailIncreasing(s);
        InsertSortedSpec(x, tail);
        var rest := InsertSorted(x, tail);
        ElementsCons(s[0], rest);
        ConsIncreasing(s[0], rest);
      }
    }
  }

  lemma TailIncreasing(s: seq<int>)
    requires s != [] && StrictlyIncreasing(s)
    ensures StrictlyIncreasing(s[1..])
    ensures forall y :: y in Elements(s[1..]) ==> s[0] < y
  {
    var t := s[1..];
    forall i, j | 0 <= i < j < |t| ensures t[i] < t[j] {
      assert t[i] == s[i + 1] && t[j] == s[j + 1];
    }
    forall y | y in Elements(t) ensures s[0] < y {
      var k :| 0 <= k < |t| && t[k] == y;
      assert s[k + 1] == y;
    }
  }

  /** unique_values: the distinct values of a field, in ascending order. */
  function UniqueValues(column: seq<int>): (r: seq<int>)
    ensures StrictlyIncreasing(r)
    ensures Elements(r) == Elements(column)
  {
    if column == [] then []
    else
      var front := column[..|column| - 1];
      assert column == front + [column[|column| - 1]];
      assert Elements(column) == Elements(front) + {column[|column| - 1]};
      InsertSortedSpec(column[|column| - 1], UniqueValues(front));
      InsertSorted(column[|column| - 1], UniqueValues(front))
  }

  /** A strictly increasing sequence is determined by its elements. */
  lemma {:induction false} StrictlyIncreasingUnique(a: seq<int>, b: seq<int>)
    requires StrictlyIncreasing(a) && StrictlyIncreasing(b)
    requires Elements(a) == Elements(b)
    ensures a == b
  {
    assert a != [] ==> a[0] in Elements(a);
    assert b != [] ==> b[0] in Elements(b);
    if a != [] && b != [] {
      assert a[0] in Elements(b) && b[0] in Elements(a);
      assert a[0] == b[0];
      assert Elements(a[1..]) == Elements(a) - {a[0]} by {
        assert a == [a[0]] + a[1..];
      }
      assert Elements(b[1..]) == Elements(b) - {b[0]} by {
        assert b == [b[0]] + b[1..];
      }
      StrictlyIncreasingUnique(a[1..], b[1..]);
    }
  }

  /** The result of unique_values depends only on the set of values in the
      field, not on the order of the rows or on repetitions. */
  lemma UniqueValuesDetermined(column: seq<int>, other: seq<int>)
    requires Elements(column) == Elements(other)
    ensures UniqueValues(column) == UniqueValues(other)
  {
    StrictlyIncreasingUnique(UniqueValues(column), UniqueValues(other));
  }

  // ---------------------------------------------------------------------
  // TabToDict

  /** No row after row i, up to row n, carries row i's key. */
  ghost predicate LastWithKey<K, V>(rows: seq<(K, V)>, i: int, n: int)
    requires 0 <= i < n <= |rows|
  {
    forall j :: i < j < n ==> rows[j].0 != rows[i].0
  }

  /** TabToDict: a dictionary from the key field to the value field, read
      row by row, a later row overwriting an earlier one with the same key. */
  method TabToDict<K(==), V>(rows: seq<(K, V)>) returns (codeDict: map<K, V>)
    ensures codeDict.Keys == set i | 0 <= i < |rows| :: rows[i].0
    ensures forall i :: 0 <= i < |rows| && LastWithKey(rows, i, |rows|) ==> codeDict[rows[i].0] == rows[i].1
  {
    codeDict := map[];
    for n := 0 to |rows|
      invariant codeDict.Keys == set i | 0 <= i < n :: rows[i].0
      invariant forall i :: 0 <= i < n && LastWithKey(rows, i, n) ==> codeDict[rows[i].0] == rows[i].1
    {
      var (key, val) := rows[n];
      codeDict := codeDict[key := val];
      assert rows[n].0 == key;
    }
  }

  // ---------------------------------------------------------------------
  // GetElapsedTime

  const MicrosPerSecond: nat := 1000000
  const SecondsPerDay: nat := 86400

  /** A Python timedelta, normalised: 0 <= seconds < 86400 and
      0 <= microseconds < 1000000, the days carrying the sign. */
  datatype Timedelta = Timedelta(days: int, seconds: nat, microseconds: nat)

  /** t2 - t1 for two datetimes given as microsecond counts on one time line. */
  function Subtract(t1: int, t2: int): (delta: Timedelta)
    ensures delta.seconds < SecondsPerDay && delta.microseconds < MicrosPerSecond
    ensures (delta.days * SecondsPerDay + delta.seconds) * MicrosPerSecond + delta.microseconds == t2 - t1
  {
    var total := t2 - t1;
    var secs := total / MicrosPerSecond;
    Timedelta(secs / SecondsPerDay, secs % SecondsPerDay, total % MicrosPerSecond)
  }

  /** The normalised form is the only one: any normalised timedelta of the
      same length is the one Subtract gives. */
  lemma SubtractUnique(t1: int, t2: int, delta: Timedelta)
    requires delta.seconds < SecondsPerDay && delta.microseconds < MicrosPerSecond
    requires (delta.days * SecondsPerDay + delta.seconds) * MicrosPerSecond + delta.microseconds == t2 - t1
    ensures delta == Subtract(t1, t2)
  {
    var total := t2 - t1;
    var secs := delta.days * SecondsPerDay + delta.seconds;
    DivModUnique(total, MicrosPerSecond, secs, delta.microseconds);
    DivModUnique(secs, SecondsPerDay, delta.days, delta.seconds);
  }

  lemma DivModUnique(a: int, b: int, q: int, r: int)
    requires 0 <= r < b && a == q * b + r
    ensures q == a / b && r == a % b
  {
    var q', r' := a / b, a % b;
    assert a == q' * b + r';
    if q > q' {
      assert (q - q') * b >= b by { MulAtLeast(q - q', b); }
    } else if q < q' {
      assert (q' - q) * b >= b by { MulAtLeast(q' - q, b); }
    }
  }

  lemma MulAtLeast(k: int, b: int)
    requires k >= 1 && b > 0
    ensures k * b >= b
  {
  }

  /** The parts GetElapsedTime prints. */
  datatype Elapsed = Elapsed(days: int, hours: nat, minutes: nat, seconds: nat)

  /** The days of the timedelta, and its seconds split into hours, minutes
      and seconds with the integer division and remainder of Python 2. */
  function ElapsedParts(delta: Timedelta): (e: Elapsed)
    ensures e.days == delta.days
    ensures e.hours * 3600 + e.minutes * 60 + e.seconds == delta.seconds
    ensures e.minutes < 60 && e.seconds < 60
    ensures delta.seconds < SecondsPerDay ==> e.hours < 24
  {
    var minutes := delta.seconds / 60;
    Elapsed(delta.days, minutes / 60, minutes % 60, delta.seconds % 60)
  }

  function FormatElapsed(e: Elapsed): string {
    FromInt(e.days) + (" days, " + (FromNat(e.hours) + (" hours, " + (FromNat(e.minutes)
    + (" minutes, " + (FromNat(e.seconds) + " seconds"))))))
  }

  /** Reads "<s> seconds" to its end. */
  function ParseSeconds(s: string): Option<nat> {
    var sec :- ReadNat(s);
    var rest :- Expect(" seconds", sec.1);
    if rest == [] then Some(sec.0) else None
  }

  /** Reads "<m> minutes, <s> seconds". */
  function ParseMinutes(s: string): Option<(nat, nat)> {
    var m :- ReadNat(s);
    var rest :- Expect(" minutes, ", m.1);
    var sec :- ParseSeconds(rest);
    Some((m.0, sec))
  }

  /** Reads "<h> hours, <m> minutes, <s> seconds". */
  function ParseHours(s: string): Option<(nat, nat, nat)> {
    var h :- ReadNat(s);
    var rest :- Expect(" hours, ", h.1);
    var ms :- ParseMinutes(rest);
    Some((h.0, ms.0, ms.1))
  }

  /** Reads text of the form "<d> days, <h> hours, <m> minutes, <s> seconds". */
  function ParseElapsed(s: string): Option<Elapsed> {
    var d :- ReadInt(s);
    var rest :- Expect(" days, ", d.1);
    var hms :- ParseHours(rest);
    Some(Elapsed(d.0, hms.0, hms.1, hms.2))
  }

  lemma ParseSecondsFormat(sec: nat)
    ensures ParseSeconds(FromNat(sec) + " seconds") == Some(sec)
  {
    ReadNatFromNat(sec, " seconds");
    ExpectLiteral(" seconds", []);
    assert " seconds" + [] == " seconds";
  }

  lemma ParseMinutesFormat(m: nat, sec: nat)
    ensures ParseMinutes(FromNat(m) + (" minutes, " + (FromNat(sec) + " seconds"))) == Some((m, sec))
  {
    var t := FromNat(sec) + " seconds";
    ReadNatFromNat(m, " minutes, " + t);
    ExpectLiteral(" minutes, ", t);
    ParseSecondsFormat(sec);
  }

  lemma ParseHoursFormat(h: nat, m: nat, sec: nat)
    ensures ParseHours(FromNat(h) + (" hours, " + (FromNat(m) + (" minutes, " + (FromNat(sec)
      + " seconds"))))) == Some((h, m, sec))
  {
    var t := FromNat(m) + (" minutes, " + (FromNat(sec) + " seconds"));
    ReadNatFromNat(h, " hours, " + t);
    ExpectLiteral(" hours, ", t);
    ParseMinutesFormat(m, sec);
  }

  /** The elapsed-time text reads back as the parts it was written from. */
  lemma ParseFormatElapsed(e: Elapsed)
    ensures ParseElapsed(FormatElapsed(e)) == Some(e)
  {
    var t := FromNat(e.hours) + (" hours, " + (FromNat(e.minutes) + (" minutes, "
      + (FromNat(e.seconds) + " seconds"))));
    ReadIntFromInt(e.days, " days, " + t);
    ExpectLiteral(" days, ", t);
    ParseHoursFormat(e.hours, e.minutes, e.seconds);
  }

  /** GetElapsedTime: the time from t1 to t2 as "<d> days, <h> hours,
      <m> minutes, <s> seconds", where d is the days of t2 - t1 and h, m, s
      split its remaining seconds (sub-second parts are dropped). */
  function GetElapsedTime(t1: int, t2: int): (deltaString: string)
    ensures ParseElapsed(deltaString).Some?
    ensures var e := ParseElapsed(deltaString).value;
      var delta := Subtract(t1, t2);
      && e.days == delta.days
      && e.hours * 3600 + e.minutes * 60 + e.seconds == delta.seconds
      && e.hours < 24 && e.minutes < 60 && e.seconds < 60
    ensures var e := ParseElapsed(deltaString).value;
      deltaString == FromInt(e.days) + " days, " + FromNat(e.hours) + " hours, "
        + FromNat(e.minutes) + " minutes, " + FromNat(e.seconds) + " seconds"
  {
    var e := ElapsedParts(Subtract(t1, t2));
    ParseFormatElapsed(e);
    FormatElapsedFlat(e);
    FormatElapsed(e)
  }

  /** FormatElapsed is the plain left-to-right concatenation of the parts. */
  lemma FormatElapsedFlat(e: Elapsed)
    ensures FormatElapsed(e) == FromInt(e.days) + " days, " + FromNat(e.hours) + " hours, "
      + FromNat(e.minutes) + " minutes, " + FromNat(e.seconds) + " seconds"
  {
    var d, h, m, s := FromInt(e.days), FromNat(e.hours), FromNat(e.minutes), FromNat(e.seconds);
    var t3 := " minutes, " + (s + " seconds");
    assert m + t3 == m + " minutes, " + s + " seconds";
    var t2 := m + t3;
    assert h + (" hours, " + t2) == h + " hours, " + m + " minutes, " + s + " seconds";
    var t1 := h + (" hours, " + t2);
    assert d + (" days, " + t1) == d + " days, " + h + " hours, " + m + " minutes, " + s + " seconds";
  }
}
