/** The in-memory stand-in for the analysis store: a module-level list that
    `post` appends to, `get` lists (newest first) or searches by id, and the
    three service functions that wrap those calls. The random id and the
    current time are parameters (`freshId`, `now`); a `Date` is its
    millisecond time value. */
module MockDb {
  import opened Wrappers
  import opened Text
  import opened Report

  /** `AnalysisResult`: `id` is absent until the store assigns one. */
  datatype AnalysisResult = AnalysisResult(
    id: Option<string>, code: string, score: int, issues: seq<Issue>, timestamp: int)

  /** What `mockAPI.get` answers: the list of records, one record, or null. */
  datatype GetResponse = Records(records: seq<AnalysisResult>) | Record(record: AnalysisResult) | Null

  const AnalysesEndpoint := "/analyses"
  const AnalysisPrefix := "/analyses/"

  /** `{ ...data, id, timestamp: new Date() }`. */
  function Stamped(data: AnalysisResult, id: string, now: int): AnalysisResult {
    data.(id := Some(id), timestamp := now)
  }

  /** `endpoint.split('/').pop()`: the text after the last `/`. */
  function LastSegment(endpoint: string): string {
    var pieces := Split(endpoint, '/');
    pieces[|pieces| - 1]
  }

  /** Appending a separator and a separator-free segment makes that segment
      the last one, so `'/analyses/' + id` is looked up as `id` itself
      whenever `id` holds no `/`. */
  lemma LastSegmentOfPath(prefix: string, segment: string)
    requires '/' !in segment
    ensures LastSegment(prefix + "/" + segment) == segment
  {
    var P := Split(prefix, '/');
    SplitConcat(prefix, "/", '/');
    assert Split("/", '/') == [[], []];
    var Q := Split(prefix + "/", '/');
    assert Q[|Q| - 1] == [];
    SplitConcat(prefix + "/", segment, '/');
    SplitWithoutSep(segment, '/');
    assert [] + segment == segment;
  }

  /** `mockDatabase.find(item => item.id === id) || null`: the first stored
      record carrying that id. */
  function FindById(db: seq<AnalysisResult>, id: string): (r: Option<AnalysisResult>)
    ensures r.None? <==> forall i :: 0 <= i < |db| ==> db[i].id != Some(id)
    ensures r.Some? ==> exists i :: (0 <= i < |db| && db[i] == r.value && db[i].id == Some(id) &&
                                      forall j :: 0 <= j < i ==> db[j].id != Some(id))
  {
    if db == [] then None
    else if db[0].id == Some(id) then Some(db[0])
    else
      var r := FindById(db[1..], id);
      assert forall i :: 1 <= i < |db| ==> db[i] == db[1..][i - 1];
      r
  }

  /** Records ordered newest first. */
  ghost predicate NewestFirst(s: seq<AnalysisResult>) {
    forall i, j :: 0 <= i < j < |s| ==> s[i].timestamp >= s[j].timestamp
  }

  /** The records of `s` stamped with time `t`, in their order in `s`. */
  function StampedAt(s: seq<AnalysisResult>, t: int): seq<AnalysisResult> {
    if s == [] then [] else (if s[0].timestamp == t then [s[0]] else []) + StampedAt(s[1..], t)
  }

  /** Places `x` before the first record that is not newer than it. */
  function InsertNewestFirst(x: AnalysisResult, s: seq<AnalysisResult>): seq<AnalysisResult> {
    if s == [] || x.timestamp >= s[0].timestamp then [x] + s
    else [s[0]] + InsertNewestFirst(x, s[1..])
  }

  /** `[...mockDatabase].sort((a, b) => b.timestamp - a.timestamp)`:
      JavaScript's sort is stable, so records with equal timestamps keep their
      stored order. */
  function SortNewestFirst(s: seq<AnalysisResult>): seq<AnalysisResult> {
    if s == [] then [] else InsertNewestFirst(s[0], SortNewestFirst(s[1..]))
  }

  lemma {:induction false} InsertKeepsOrder(x: AnalysisResult, s: seq<AnalysisResult>)
    requires NewestFirst(s)
    ensures NewestFirst(InsertNewestFirst(x, s))
  {
    if s != [] && x.timestamp < s[0].timestamp {
      var rest := InsertNewestFirst(x, s[1..]);
      assert NewestFirst(s[1..]) by {
        forall i, j | 0 <= i < j < |s[1..]| ensures s[1..][i].timestamp >= s[1..][j].timestamp {
          assert s[1..][i] == s[i + 1] && s[1..][j] == s[j + 1];
        }
      }
      InsertKeepsOrder(x, s[1..]);
      assert rest[0].timestamp <= s[0].timestamp by {
        assert rest[0] == x || rest[0] == s[1];
      }
      var r := [s[0]] + rest;
      forall i, j | 0 <= i < j < |r| ensures r[i].timestamp >= r[j].timestamp {
        assert r[j] == rest[j - 1];
        if i > 0 {
          assert r[i] == rest[i - 1];
        } else if j > 1 {
          assert rest[0].timestamp >= rest[j - 1].timestamp;
        }
      }
    } else {
      var r := [x] + s;
      forall i, j | 0 <= i < j < |r| ensures r[i].timestamp >= r[j].timestamp {
        assert r[j] == s[j - 1];
        if i > 0 {
          assert r[i] == s[i - 1];
        } else if j > 1 {
          assert s[0].timestamp >= s[j - 1].timestamp;
        }
      }
    }
  }

  lemma {:induction false} InsertKeepsRecords(x: AnalysisResult, s: seq<AnalysisResult>)
    ensures multiset(InsertNewestFirst(x, s)) == multiset(s) + multiset{x}
  {
    if s != [] && x.timestamp < s[0].timestamp {
      InsertKeepsRecords(x, s[1..]);
      assert s == [s[0]] + s[1..];
    }
  }

  lemma StampedAtCons(r: AnalysisResult, rest: seq<AnalysisResult>, t: int)
    ensures StampedAt([r] + rest, t) == (if r.timestamp == t then [r] else []) + StampedAt(rest, t)
  {
    assert ([r] + rest)[1..] == rest;
  }

  /** Inserting `x` puts it ahead of every record with its timestamp: the
      records it passes are strictly newer. */
  lemma {:induction false} InsertStampedAt(x: AnalysisResult, s: seq<AnalysisResult>, t: int)
    ensures StampedAt(InsertNewestFirst(x, s), t) == (if x.timestamp == t then [x] else []) + StampedAt(s, t)
  {
    if s == [] || x.timestamp >= s[0].timestamp {
      StampedAtCons(x, s, t);
    } else {
      var rest := InsertNewestFirst(x, s[1..]);
      var tail := StampedAt(s[1..], t);
      var head := if s[0].timestamp == t then [s[0]] else [];
      InsertStampedAt(x, s[1..], t);
      StampedAtCons(s[0], rest, t);
      assert StampedAt(s, t) == head + tail;
      if x.timestamp == t {
        assert head == [];
        assert StampedAt(rest, t) == [x] + tail;
      } else {
        assert StampedAt(rest, t) == tail;
      }
    }
  }

  /** The sorted copy is newest first, holds exactly the stored records, and
      keeps the stored order among records with the same timestamp. */
  lemma {:induction false} SortNewestFirstCorrect(s: seq<AnalysisResult>)
    ensures NewestFirst(SortNewestFirst(s))
    ensures multiset(SortNewestFirst(s)) == multiset(s)
    ensures forall t :: StampedAt(SortNewestFirst(s), t) == StampedAt(s, t)
  {
    if s != [] {
      SortNewestFirstCorrect(s[1..]);
      var sorted := SortNewestFirst(s[1..]);
      InsertKeepsOrder(s[0], sorted);
      InsertKeepsRecords(s[0], sorted);
      assert s == [s[0]] + s[1..];
      forall t ensures StampedAt(SortNewestFirst(s), t) == StampedAt(s, t) {
        InsertStampedAt(s[0], sorted, t);
      }
    }
  }

  /** The module-level `mockDatabase` and the `mockAPI` calls over it. */
  class MockApi {
    var database: seq<AnalysisResult>

    constructor ()
      ensures database == []
    {
      database := [];
    }

    /** `mockAPI.post`: only `/analyses` stores anything; the answer `{id}` is
        `Some(id)`, null is `None`. */
    method Post(endpoint: string, data: AnalysisResult, freshId: string, now: int)
      returns (response: Option<string>)
      modifies this
      ensures endpoint == AnalysesEndpoint ==>
        response == Some(freshId) && database == old(database) + [Stamped(data, freshId, now)]
      ensures endpoint != AnalysesEndpoint ==> response == None && database == old(database)
    {
      if endpoint == AnalysesEndpoint {
        database := database + [Stamped(data, freshId, now)];
        response := Some(freshId);
      } else {
        response := None;
      }
    }

    /** `mockAPI.get`: the sorted copy of the store for `/analyses`, the first
        record whose id is the last path segment for `/analyses/<x>`, null
        for anything else. The store itself is not reordered. */
    method Get(endpoint: string) returns (response: GetResponse)
      ensures endpoint == AnalysesEndpoint ==>
        response.Records? && NewestFirst(response.records) &&
        multiset(response.records) == multiset(database) &&
        forall t :: StampedAt(response.records, t) == StampedAt(database, t)
      ensures endpoint != AnalysesEndpoint && StartsWith(endpoint, AnalysisPrefix) ==>
        match FindById(database, LastSegment(endpoint))
        case Some(r) => response == Record(r)
        case None => response == Null
      ensures endpoint != AnalysesEndpoint && !StartsWith(endpoint, AnalysisPrefix) ==>
        response == Null
    {
      if endpoint == AnalysesEndpoint {
        SortNewestFirstCorrect(database);
        response := Records(SortNewestFirst(database));
      } else if StartsWith(endpoint, AnalysisPrefix) {
        var found := FindById(database, LastSegment(endpoint));
        response := if found.Some? then Record(found.value) else Null;
      } else {
        response := Null;
      }
    }

    /** `saveAnalysisResult`: the record is always stored; the id comes back
        only when it is truthy (a non-empty string), otherwise the failure
        becomes null. */
    method SaveAnalysisResult(analysis: AnalysisResult, freshId: string, now: int)
      returns (id: Option<string>)
      modifies this
      ensures database == old(database) + [Stamped(analysis, freshId, now)]
      ensures id == (if freshId != "" then Some(freshId) else None)
    {
      var response := Post(AnalysesEndpoint, analysis, freshId, now);
      if response.Some? && response.value != "" {
        id := Some(response.value);
      } else {
        id := None;
      }
    }

    /** `getAnalysisHistory`: every stored record, newest first. */
    method GetAnalysisHistory() returns (history: seq<AnalysisResult>)
      ensures NewestFirst(history) && multiset(history) == multiset(database)
      ensures forall t :: StampedAt(history, t) == StampedAt(database, t)
    {
      var response := Get(AnalysesEndpoint);
      history := response.records;
    }

    /** `getAnalysisById`: the first record whose id is the last segment of
        `/analyses/<id>`, which is `id` itself when `id` holds no `/`. */
    method GetAnalysisById(id: string) returns (result: Option<AnalysisResult>)
      ensures result == FindById(database, LastSegment(AnalysisPrefix + id))
      ensures '/' !in id ==> result == FindById(database, id)
    {
      assert StartsWith(AnalysisPrefix + id, AnalysisPrefix);
      var response := Get(AnalysisPrefix + id);
      result := if response.Record? then Some(response.record) else None;
      if '/' !in id {
        assert AnalysisPrefix + id == "/analyses" + "/" + id;
        LastSegmentOfPath("/analyses", id);
      }
    }
  }
}
