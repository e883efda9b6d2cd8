/** Identity assignment: every face row is given the person of its cluster.
    The clustering itself (DBSCAN) is an input, as a label per face; the
    distance between embeddings and the mean of a set of embeddings are
    parameters `dist` and `mean`. */
module FaceClustering {
  import opened Common
  import opened Store

  /** `_find_matching_person`'s default `threshold`. */
  const MatchThreshold: real := 0.5

  /** One item of `people_avg_embeddings`: a person id and its decoded
      centroid, None when the stored centroid is NULL. */
  datatype Entry = Entry(personId: nat, centroid: Option<Embedding>)

  /** The counts `assign_person_ids` reports: faces given a person, and unique labels. */
  datatype Summary = Summary(faces: nat, clusters: nat)

  /** The in-memory map `_load_people_embeddings` builds from a people table. */
  function Entries(ps: seq<Person>): (r: seq<Entry>)
    ensures |r| == |ps|
    ensures forall i :: 0 <= i < |ps| ==> r[i] == Entry(ps[i].id, ps[i].centroid)
  {
    seq(|ps|, i requires 0 <= i < |ps| => Entry(ps[i].id, ps[i].centroid))
  }

  predicate DistinctKeys(m: seq<Entry>)
  {
    forall i, j :: 0 <= i < j < |m| ==> m[i].personId != m[j].personId
  }

  /** `m[id]` when present. */
  function Lookup(m: seq<Entry>, id: nat): (r: Option<Entry>)
    ensures r.Some? ==> exists j :: 0 <= j < |m| && m[j] == r.value && r.value.personId == id
    ensures r.None? ==> forall j :: 0 <= j < |m| ==> m[j].personId != id
  {
    if |m| == 0 then None
    else if m[0].personId == id then Some(m[0])
    else Lookup(m[1..], id)
  }

  /** `m[id] = c` on an insertion-ordered dict: the value is replaced in place
      when the key is present, and the pair is appended otherwise. */
  function DictSet(m: seq<Entry>, id: nat, c: Option<Embedding>): seq<Entry>
  {
    if |m| == 0 then [Entry(id, c)]
    else if m[0].personId == id then [Entry(id, c)] + m[1..]
    else [m[0]] + DictSet(m[1..], id, c)
  }

  lemma {:induction false} DictSetAbsent(m: seq<Entry>, id: nat, c: Option<Embedding>)
    requires forall j :: 0 <= j < |m| ==> m[j].personId != id
    ensures DictSet(m, id, c) == m + [Entry(id, c)]
  {
    if |m| > 0 {
      DictSetAbsent(m[1..], id, c);
      assert [m[0]] + (m[1..] + [Entry(id, c)]) == m + [Entry(id, c)];
    }
  }

  lemma {:induction false} DictSetPresent(m: seq<Entry>, id: nat, c: Option<Embedding>)
    requires DistinctKeys(m)
    ensures |DictSet(m, id, c)| == |m| + (if Lookup(m, id).Some? then 0 else 1)
    ensures Lookup(m, id).Some? ==>
              forall j :: 0 <= j < |m| ==>
                DictSet(m, id, c)[j] == if m[j].personId == id then Entry(id, c) else m[j]
    ensures Lookup(m, id).None? ==> DictSet(m, id, c) == m + [Entry(id, c)]
  {
    if Lookup(m, id).None? {
      DictSetAbsent(m, id, c);
    } else if |m| > 0 && m[0].personId != id {
      DictSetPresent(m[1..], id, c);
    }
  }

  /** The dict write for a matched person mirrors the table's UPDATE. */
  lemma {:induction false} DictSetMirrorsUpdate(ps: seq<Person>, id: nat, c: Option<Embedding>)
    requires DistinctKeys(Entries(ps))
    requires exists j :: 0 <= j < |ps| && ps[j].id == id
    ensures DictSet(Entries(ps), id, c) == Entries(UpdateCentroidIn(ps, id, c))
  {
    var m := Entries(ps);
    var j :| 0 <= j < |ps| && ps[j].id == id;
    assert m[j].personId == id;
    DictSetPresent(m, id, c);
  }

  /** The dict write for a new person mirrors the table's INSERT. */
  lemma {:induction false} DictSetMirrorsInsert(ps: seq<Person>, id: nat, name: string, c: Option<Embedding>)
    requires forall j :: 0 <= j < |ps| ==> ps[j].id != id
    ensures DictSet(Entries(ps), id, c) == Entries(ps + [Person(id, name, c)])
  {
    DictSetAbsent(Entries(ps), id, c);
  }

  // -------------------------------------------------------------- matching

  /** The test inside `_find_matching_person`'s loop. */
  predicate IsMatch(avg: Embedding, c: Option<Embedding>, dist: (Embedding, Embedding) -> real)
  {
    c.Some? && dist(avg, c.value) < MatchThreshold
  }

  /** `_find_matching_person`: the first person, in map order, whose centroid
      is present and strictly closer than the threshold; None when there is none. */
  function FindMatchingPerson(avg: Embedding, m: seq<Entry>,
                              dist: (Embedding, Embedding) -> real): (r: Option<nat>)
    ensures r.None? <==> forall j :: 0 <= j < |m| ==> !IsMatch(avg, m[j].centroid, dist)
    ensures r.Some? ==>
              exists j :: 0 <= j < |m| && m[j].personId == r.value
                          && IsMatch(avg, m[j].centroid, dist)
                          && forall k :: 0 <= k < j ==> !IsMatch(avg, m[k].centroid, dist)
  {
    if |m| == 0 then None
    else if IsMatch(avg, m[0].centroid, dist) then Some(m[0].personId)
    else
      var r := FindMatchingPerson(avg, m[1..], dist);
      assert r.Some? ==> exists j :: 1 <= j < |m| && m[j].personId == r.value
                          && IsMatch(avg, m[j].centroid, dist)
                          && forall k :: 0 <= k < j ==> !IsMatch(avg, m[k].centroid, dist) by {
        if r.Some? {
          var j :| 0 <= j < |m[1..]| && m[1..][j].personId == r.value
                   && IsMatch(avg, m[1..][j].centroid, dist)
                   && forall k :: 0 <= k < j ==> !IsMatch(avg, m[1..][k].centroid, dist);
          assert m[j + 1] == m[1..][j];
          forall k | 0 <= k < j + 1 ensures !IsMatch(avg, m[k].centroid, dist) {
            if k > 0 { assert m[k] == m[1..][k - 1]; }
          }
        }
      }
      r
  }

  /** With unique keys, the matched id names exactly the entry that matched,
      so the dict lookup that follows the match finds a present centroid. */
  lemma {:induction false} MatchedEntry(avg: Embedding, m: seq<Entry>, dist: (Embedding, Embedding) -> real)
    requires DistinctKeys(m)
    requires FindMatchingPerson(avg, m, dist).Some?
    ensures var pid := FindMatchingPerson(avg, m, dist).value;
            Lookup(m, pid).Some? && IsMatch(avg, Lookup(m, pid).value.centroid, dist)
  {
    var pid := FindMatchingPerson(avg, m, dist).value;
    var j :| 0 <= j < |m| && m[j].personId == pid && IsMatch(avg, m[j].centroid, dist);
    var e := Lookup(m, pid);
    var i :| 0 <= i < |m| && m[i] == e.value && e.value.personId == pid;
    assert i == j;
  }

  /** The position of the match: the first entry whose centroid matches. */
  lemma {:induction false} MatchIndex(avg: Embedding, m: seq<Entry>, dist: (Embedding, Embedding) -> real)
    returns (j: nat)
    requires FindMatchingPerson(avg, m, dist).Some?
    ensures j < |m| && FindMatchingPerson(avg, m, dist) == Some(m[j].personId)
    ensures IsMatch(avg, m[j].centroid, dist)
    ensures forall k :: 0 <= k < j ==> !IsMatch(avg, m[k].centroid, dist)
  {
    if IsMatch(avg, m[0].centroid, dist) {
      j := 0;
    } else {
      var j' := MatchIndex(avg, m[1..], dist);
      j := j' + 1;
      assert m[j] == m[1..][j'];
      forall k | 0 <= k < j ensures !IsMatch(avg, m[k].centroid, dist) {
        if k > 0 { assert m[k] == m[1..][k - 1]; }
      }
    }
  }

  /** With unique keys, looking up an entry's key finds that entry. */
  lemma {:induction false} LookupAt(m: seq<Entry>, j: nat)
    requires DistinctKeys(m) && j < |m|
    ensures Lookup(m, m[j].personId) == Some(m[j])
  {
    if j > 0 {
      assert m[0].personId != m[j].personId;
      assert m[1..][j - 1] == m[j];
      LookupAt(m[1..], j - 1);
    }
  }

  /** A person whose centroid is NULL can never be the match. */
  lemma {:induction false} NullCentroidNeverMatched(avg: Embedding, m: seq<Entry>,
                                 dist: (Embedding, Embedding) -> real, j: nat)
    requires DistinctKeys(m)
    requires j < |m| && m[j].centroid.None?
    ensures FindMatchingPerson(avg, m, dist) != Some(m[j].personId)
  {
    var r := FindMatchingPerson(avg, m, dist);
    if r.Some? {
      var i :| 0 <= i < |m| && m[i].personId == r.value && IsMatch(avg, m[i].centroid, dist);
      assert i != j;
    }
  }

  // ----------------------------------------------------------- the labels

  predicate StrictlyIncreasing(s: seq<int>)
  {
    forall i, j :: 0 <= i < j < |s| ==> s[i] < s[j]
  }

  function InsertSorted(s: seq<int>, x: int): (r: seq<int>)
    requires StrictlyIncreasing(s)
    ensures StrictlyIncreasing(r)
    ensures forall y :: y in r <==> y in s || y == x
  {
    if |s| == 0 then [x]
    else if x < s[0] then [x] + s
    else if x == s[0] then s
    else
      var rest := InsertSorted(s[1..], x);
      assert forall k :: 0 <= k < |rest| ==> s[0] < rest[k] by {
        forall k | 0 <= k < |rest| ensures s[0] < rest[k] {
          assert rest[k] in rest;
        }
      }
      [s[0]] + rest
  }

  /** `np.unique(labels)`: the distinct labels in ascending order. */
  function Unique(labels: seq<int>): (r: seq<int>)
    ensures StrictlyIncreasing(r)
    ensures forall y :: y in r <==> y in labels
  {
    if |labels| == 0 then []
    else InsertSorted(Unique(labels[..|labels| - 1]), labels[|labels| - 1])
  }

  /** `embeddings_array[[i for i, l in enumerate(labels) if l == lab]]`. */
  function ClusterEmbeddings(embs: seq<Embedding>, labels: seq<int>, lab: int): seq<Embedding>
    requires |embs| == |labels|
  {
    if |labels| == 0 then []
    else (if labels[0] == lab then [embs[0]] else []) + ClusterEmbeddings(embs[1..], labels[1..], lab)
  }

  /** A cluster holds exactly the embeddings of the faces carrying its label. */
  lemma {:induction false} ClusterMembers(embs: seq<Embedding>, labels: seq<int>, lab: int)
    requires |embs| == |labels|
    ensures var r := ClusterEmbeddings(embs, labels, lab);
            && (forall i :: 0 <= i < |labels| && labels[i] == lab ==> embs[i] in r)
            && (forall e :: e in r ==> exists i :: 0 <= i < |labels| && labels[i] == lab && embs[i] == e)
  {
    if |labels| > 0 {
      ClusterMembers(embs[1..], labels[1..], lab);
      var rest := ClusterEmbeddings(embs[1..], labels[1..], lab);
      var r := ClusterEmbeddings(embs, labels, lab);
      forall i | 1 <= i < |labels| && labels[i] == lab ensures embs[i] in r {
        assert labels[1..][i - 1] == labels[i] && embs[1..][i - 1] == embs[i];
      }
      forall e | e in r ensures exists i :: 0 <= i < |labels| && labels[i] == lab && embs[i] == e {
        if e in rest {
          var i :| 0 <= i < |labels[1..]| && labels[1..][i] == lab && embs[1..][i] == e;
          assert labels[i + 1] == lab && embs[i + 1] == e;
        } else {
          assert labels[0] == lab && embs[0] == e;
        }
      }
    }
  }

  // ------------------------------------------------- the reconciliation run

  /** The state `_assign_clusters_to_people` carries from one lab to the
      next: the people table (mirrored by the in-memory map), the labels
      resolved so far, `next_person_index`, the next person id the table will
      hand out, and how many clusters were folded into an existing person. */
  datatype RunState = RunState(people: seq<Person>, labelToPerson: map<int, nat>,
                               nextIndex: nat, nextId: nat, matched: nat)

  /** The state before the first lab: `next_person_index = len(people_avg_embeddings)`. */
  function Start(ps: seq<Person>, nextId: nat): RunState
  {
    RunState(ps, map[], |ps|, nextId, 0)
  }

  predicate Inv(s: RunState)
  {
    PersonIdsOk(s.people, s.nextId)
  }

  /** `f"Person{next_person_index}"`. */
  function NewPersonName(k: nat): string
  {
    "Person" + NatToString(k)
  }

  lemma {:induction false} EntriesDistinct(ps: seq<Person>, next: nat)
    requires PersonIdsOk(ps, next)
    ensures DistinctKeys(Entries(ps))
  {
  }

  /** The row of the first person, in table order, whose centroid the
      average matches. */
  function FirstMatch(avg: Embedding, ps: seq<Person>, dist: (Embedding, Embedding) -> real): (r: Option<nat>)
    ensures r.Some? ==> FirstMatchAt(avg, ps, dist, r.value)
    ensures r.None? ==> forall k :: 0 <= k < |ps| ==> !IsMatch(avg, ps[k].centroid, dist)
  {
    if |ps| == 0 then None
    else if IsMatch(avg, ps[0].centroid, dist) then Some(0)
    else match FirstMatch(avg, ps[1..], dist)
      case Some(i) =>
        assert forall k :: 1 <= k < i + 1 ==> ps[k] == ps[1..][k - 1];
        Some(i + 1)
      case None =>
        assert forall k :: 1 <= k < |ps| ==> ps[k] == ps[1..][k - 1];
        None
  }

  /** `_find_matching_person` over the map loaded from the table names the
      person of the table's first matching row, since ids are unique. */
  lemma {:induction false} FindMatchingIsFirstMatch(avg: Embedding, ps: seq<Person>, next: nat,
                                 dist: (Embedding, Embedding) -> real)
    requires PersonIdsOk(ps, next)
    ensures FindMatchingPerson(avg, Entries(ps), dist) ==
              match FirstMatch(avg, ps, dist)
              case Some(i) => Some(ps[i].id)
              case None => None
  {
    var m := Entries(ps);
    if FindMatchingPerson(avg, m, dist).Some? {
      var j := MatchIndex(avg, m, dist);
      var i := FirstMatch(avg, ps, dist);
      assert i.Some? by { assert IsMatch(avg, ps[j].centroid, dist); }
    }
  }

  /** One iteration of the loop over unique labels. The dict lookup by the
      matched id finds, ids being unique, the first matching row
      (`FindMatchingIsFirstMatch`), so the step is written on that row. */
  function Step(s: RunState, embs: seq<Embedding>, labels: seq<int>, lab: int,
                dist: (Embedding, Embedding) -> real,
                mean: seq<Embedding> -> Embedding): (r: RunState)
    requires Inv(s) && |embs| == |labels|
    ensures Inv(r)
  {
    var cluster := ClusterEmbeddings(embs, labels, lab);
    var avg := mean(cluster);
    match FirstMatch(avg, s.people, dist)
    case Some(i) =>
      s.(people := s.people[i := s.people[i].(centroid := Some(mean(cluster + [s.people[i].centroid.value])))],
         labelToPerson := s.labelToPerson[lab := s.people[i].id],
         matched := s.matched + 1)
    case None =>
      s.(people := s.people + [Person(s.nextId, NewPersonName(s.nextIndex), Some(avg))],
         labelToPerson := s.labelToPerson[lab := s.nextId],
         nextIndex := s.nextIndex + 1,
         nextId := s.nextId + 1)
  }

  /** The loop over `ls`, lab by lab, as a left fold. */
  function Run(s: RunState, embs: seq<Embedding>, labels: seq<int>, ls: seq<int>,
               dist: (Embedding, Embedding) -> real,
               mean: seq<Embedding> -> Embedding): (r: RunState)
    requires Inv(s) && |embs| == |labels|
    ensures Inv(r)
    decreases |ls|
  {
    if |ls| == 0 then s
    else Step(Run(s, embs, labels, ls[..|ls| - 1], dist, mean), embs, labels, ls[|ls| - 1], dist, mean)
  }

  /** A step whose cluster mean first matches row `i` folds the cluster into it. */
  lemma {:induction false} StepOnMatch(s: RunState, embs: seq<Embedding>, labels: seq<int>, lab: int,
                    dist: (Embedding, Embedding) -> real, mean: seq<Embedding> -> Embedding, i: nat)
    requires Inv(s) && |embs| == |labels|
    requires FirstMatch(mean(ClusterEmbeddings(embs, labels, lab)), s.people, dist) == Some(i)
    ensures i < |s.people| && s.people[i].centroid.Some?
    ensures Step(s, embs, labels, lab, dist, mean)
            == s.(people := s.people[i := s.people[i].(centroid :=
                    Some(mean(ClusterEmbeddings(embs, labels, lab) + [s.people[i].centroid.value])))],
                  labelToPerson := s.labelToPerson[lab := s.people[i].id],
                  matched := s.matched + 1)
  {
  }

  /** A step whose cluster mean matches no row appends the next person. */
  lemma {:induction false} StepOnNoMatch(s: RunState, embs: seq<Embedding>, labels: seq<int>, lab: int,
                      dist: (Embedding, Embedding) -> real, mean: seq<Embedding> -> Embedding)
    requires Inv(s) && |embs| == |labels|
    requires FirstMatch(mean(ClusterEmbeddings(embs, labels, lab)), s.people, dist).None?
    ensures Step(s, embs, labels, lab, dist, mean)
            == s.(people := s.people + [Person(s.nextId, NewPersonName(s.nextIndex),
                                                Some(mean(ClusterEmbeddings(embs, labels, lab))))],
                  labelToPerson := s.labelToPerson[lab := s.nextId],
                  nextIndex := s.nextIndex + 1,
                  nextId := s.nextId + 1)
  {
  }

  // ---------------------------------------------- what one step and a run do

  /** Person `i` is the first, in table order, that the cluster average matches. */
  predicate FirstMatchAt(avg: Embedding, ps: seq<Person>, dist: (Embedding, Embedding) -> real, i: nat)
  {
    && i < |ps|
    && IsMatch(avg, ps[i].centroid, dist)
    && forall k :: 0 <= k < i ==> !IsMatch(avg, ps[k].centroid, dist)
  }

  /** A step that folds the cluster into a person: that person is the first
      the cluster mean matches, its centroid alone becomes the mean of the
      cluster's embeddings and its old centroid, and the label resolves to it. */
  lemma {:induction false} StepMatched(s: RunState, embs: seq<Embedding>, labels: seq<int>, lab: int,
                    dist: (Embedding, Embedding) -> real, mean: seq<Embedding> -> Embedding)
    returns (i: nat)
    requires Inv(s) && |embs| == |labels|
    requires Step(s, embs, labels, lab, dist, mean).matched != s.matched
    ensures var r := Step(s, embs, labels, lab, dist, mean);
            var cluster := ClusterEmbeddings(embs, labels, lab);
            && FirstMatchAt(mean(cluster), s.people, dist, i)
            && r.people == s.people[i := s.people[i].(centroid :=
                 Some(mean(cluster + [s.people[i].centroid.value])))]
            && r.labelToPerson == s.labelToPerson[lab := s.people[i].id]
            && r.matched == s.matched + 1 && r.nextIndex == s.nextIndex && r.nextId == s.nextId
  {
    i := FirstMatch(mean(ClusterEmbeddings(embs, labels, lab)), s.people, dist).value;
  }

  /** A step that creates a person: no person matches the cluster mean, and
      `Person{next_person_index}` is appended with that mean as its centroid. */
  lemma {:induction false} StepCreated(s: RunState, embs: seq<Embedding>, labels: seq<int>, lab: int,
                    dist: (Embedding, Embedding) -> real, mean: seq<Embedding> -> Embedding)
    requires Inv(s) && |embs| == |labels|
    requires Step(s, embs, labels, lab, dist, mean).matched == s.matched
    ensures var r := Step(s, embs, labels, lab, dist, mean);
            var avg := mean(ClusterEmbeddings(embs, labels, lab));
            && (forall i :: 0 <= i < |s.people| ==> !IsMatch(avg, s.people[i].centroid, dist))
            && r.people == s.people + [Person(s.nextId, NewPersonName(s.nextIndex), Some(avg))]
            && r.labelToPerson == s.labelToPerson[lab := s.nextId]
            && r.nextIndex == s.nextIndex + 1 && r.nextId == s.nextId + 1
  {
  }

  predicate MapsToPeople(m: map<int, nat>, ps: seq<Person>)
  {
    forall l :: l in m ==> exists i :: 0 <= i < |ps| && ps[i].id == m[l]
  }

  /** A run keeps every existing person in place with its id and name, and
      appends the persons it creates, numbered on from `next_person_index`
      and `nextId`; created plus matched clusters is the number of labels. */
  lemma {:induction false} RunShape(s: RunState, embs: seq<Embedding>, labels: seq<int>, ls: seq<int>,
                 dist: (Embedding, Embedding) -> real, mean: seq<Embedding> -> Embedding)
    requires Inv(s) && |embs| == |labels|
    ensures var r := Run(s, embs, labels, ls, dist, mean);
            && |s.people| <= |r.people| <= |s.people| + |ls|
            && r.nextIndex == s.nextIndex + (|r.people| - |s.people|)
            && r.nextId == s.nextId + (|r.people| - |s.people|)
            && r.matched + (|r.people| - |s.people|) == s.matched + |ls|
            && (forall i :: 0 <= i < |s.people| ==>
                  r.people[i].id == s.people[i].id && r.people[i].name == s.people[i].name)
            && (forall j :: |s.people| <= j < |r.people| ==>
                  && r.people[j].id == s.nextId + (j - |s.people|)
                  && r.people[j].name == NewPersonName(s.nextIndex + (j - |s.people|))
                  && r.people[j].centroid.Some?)
  {
    RunGrows(s, embs, labels, ls, dist, mean);
  }

  /** How `r` relates to the state `s` a run of `n` labels started from. */
  predicate Grown(s: RunState, r: RunState, n: nat)
  {
    && |s.people| <= |r.people| <= |s.people| + n
    && r.nextIndex == s.nextIndex + (|r.people| - |s.people|)
    && r.nextId == s.nextId + (|r.people| - |s.people|)
    && r.matched + (|r.people| - |s.people|) == s.matched + n
    && (forall i :: 0 <= i < |s.people| ==>
          r.people[i].id == s.people[i].id && r.people[i].name == s.people[i].name)
    && (forall j :: |s.people| <= j < |r.people| ==>
          && r.people[j].id == s.nextId + (j - |s.people|)
          && r.people[j].name == NewPersonName(s.nextIndex + (j - |s.people|))
          && r.people[j].centroid.Some?)
  }

  lemma {:induction false} StepGrows(s: RunState, p: RunState, embs: seq<Embedding>, labels: seq<int>, lab: int, n: nat,
                  dist: (Embedding, Embedding) -> real, mean: seq<Embedding> -> Embedding)
    requires Inv(p) && |embs| == |labels|
    requires Grown(s, p, n)
    ensures Grown(s, Step(p, embs, labels, lab, dist, mean), n + 1)
  {
    var r := Step(p, embs, labels, lab, dist, mean);
    if r.matched != p.matched {
      var i := StepMatched(p, embs, labels, lab, dist, mean);
      GrownByUpdate(s, p, r, n, i);
    } else {
      StepCreated(p, embs, labels, lab, dist, mean);
      GrownByAppend(s, p, r, n);
    }
  }

  /** Changing one centroid and counting a match keeps a run's shape. */
  lemma {:induction false} GrownByUpdate(s: RunState, p: RunState, r: RunState, n: nat, i: nat)
    requires Grown(s, p, n) && i < |p.people|
    requires |r.people| == |p.people|
    requires forall k :: 0 <= k < |p.people| ==>
               r.people[k].id == p.people[k].id && r.people[k].name == p.people[k].name
    requires r.people[i].centroid.Some?
    requires forall k :: 0 <= k < |p.people| && k != i ==> r.people[k].centroid == p.people[k].centroid
    requires r.matched == p.matched + 1 && r.nextIndex == p.nextIndex && r.nextId == p.nextId
    ensures Grown(s, r, n + 1)
  {
  }

  /** Appending the next numbered person keeps a run's shape. */
  lemma {:induction false} GrownByAppend(s: RunState, p: RunState, r: RunState, n: nat)
    requires Grown(s, p, n)
    requires |r.people| == |p.people| + 1 && r.people[..|p.people|] == p.people
    requires r.people[|p.people|].id == p.nextId
    requires r.people[|p.people|].name == NewPersonName(p.nextIndex)
    requires r.people[|p.people|].centroid.Some?
    requires r.matched == p.matched && r.nextIndex == p.nextIndex + 1 && r.nextId == p.nextId + 1
    ensures Grown(s, r, n + 1)
  {
    forall k | 0 <= k < |p.people| ensures r.people[k] == p.people[k] {
      assert r.people[..|p.people|][k] == r.people[k];
    }
  }

  lemma {:induction false} RunGrows(s: RunState, embs: seq<Embedding>, labels: seq<int>, ls: seq<int>,
                                    dist: (Embedding, Embedding) -> real, mean: seq<Embedding> -> Embedding)
    requires Inv(s) && |embs| == |labels|
    ensures Grown(s, Run(s, embs, labels, ls, dist, mean), |ls|)
  {
    if |ls| > 0 {
      var front := ls[..|ls| - 1];
      RunGrows(s, embs, labels, front, dist, mean);
      StepGrows(s, Run(s, embs, labels, front, dist, mean), embs, labels, ls[|ls| - 1], |front|, dist, mean);
    }
  }

  /** After a run every label of `ls` is resolved, and every resolved label
      names a person of the table. */
  lemma {:induction false} RunLabels(s: RunState, embs: seq<Embedding>, labels: seq<int>, ls: seq<int>,
                                     dist: (Embedding, Embedding) -> real, mean: seq<Embedding> -> Embedding)
    requires Inv(s) && |embs| == |labels|
    requires MapsToPeople(s.labelToPerson, s.people)
    ensures var r := Run(s, embs, labels, ls, dist, mean);
            && (forall l :: l in r.labelToPerson <==> l in s.labelToPerson || l in ls)
            && MapsToPeople(r.labelToPerson, r.people)
  {
    if |ls| > 0 {
      var front := ls[..|ls| - 1];
      var lab := ls[|ls| - 1];
      RunLabels(s, embs, labels, front, dist, mean);
      var p := Run(s, embs, labels, front, dist, mean);
      var r := Step(p, embs, labels, lab, dist, mean);
      assert r == Run(s, embs, labels, ls, dist, mean);
      assert forall l :: l in ls <==> l in front || l == lab by {
        assert ls == front + [lab];
      }
      if r.matched != p.matched {
        var i := StepMatched(p, embs, labels, lab, dist, mean);
        forall l | l in r.labelToPerson
          ensures exists k :: 0 <= k < |r.people| && r.people[k].id == r.labelToPerson[l]
        {
          if l != lab {
            var k :| 0 <= k < |p.people| && p.people[k].id == p.labelToPerson[l];
            assert r.people[k].id == p.people[k].id;
          } else {
            assert r.people[i].id == r.labelToPerson[l];
          }
        }
      } else {
        StepCreated(p, embs, labels, lab, dist, mean);
        forall l | l in r.labelToPerson
          ensures exists k :: 0 <= k < |r.people| && r.people[k].id == r.labelToPerson[l]
        {
          if l != lab {
            var k :| 0 <= k < |p.people| && p.people[k].id == p.labelToPerson[l];
            assert r.people[k].id == p.people[k].id;
          } else {
            assert r.people[|p.people|].id == r.labelToPerson[l];
          }
        }
      }
    }
  }

  /** A person whose centroid is NULL is never matched in a run: its row is
      left exactly as it was and no label is resolved to it. */
  lemma {:induction false} RunKeepsNullCentroid(s: RunState, embs: seq<Embedding>, labels: seq<int>,
                                                ls: seq<int>, dist: (Embedding, Embedding) -> real,
                                                mean: seq<Embedding> -> Embedding, i: nat)
    requires Inv(s) && |embs| == |labels|
    requires i < |s.people| && s.people[i].centroid.None?
    requires forall l :: l in s.labelToPerson ==> s.labelToPerson[l] != s.people[i].id
    ensures var r := Run(s, embs, labels, ls, dist, mean);
            && i < |r.people| && r.people[i] == s.people[i]
            && forall l :: l in r.labelToPerson ==> r.labelToPerson[l] != s.people[i].id
  {
    if |ls| > 0 {
      var front := ls[..|ls| - 1];
      var lab := ls[|ls| - 1];
      RunKeepsNullCentroid(s, embs, labels, front, dist, mean, i);
      var p := Run(s, embs, labels, front, dist, mean);
      var r := Step(p, embs, labels, lab, dist, mean);
      assert r == Run(s, embs, labels, ls, dist, mean);
      if r.matched != p.matched {
        var k := StepMatched(p, embs, labels, lab, dist, mean);
        assert k != i;
        assert p.people[k].id != p.people[i].id;
      } else {
        StepCreated(p, embs, labels, lab, dist, mean);
        assert p.nextId != p.people[i].id;
      }
    }
  }

  /** The persons created in one run are named `Person{k}` for their own
      position `k` in the table, so no two of them share a name. */
  lemma {:induction false} CreatedNamesDistinct(ps: seq<Person>, nextId: nat, embs: seq<Embedding>, labels: seq<int>,
                             ls: seq<int>, dist: (Embedding, Embedding) -> real,
                             mean: seq<Embedding> -> Embedding)
    requires PersonIdsOk(ps, nextId) && |embs| == |labels|
    ensures var r := Run(Start(ps, nextId), embs, labels, ls, dist, mean);
            && (forall j :: |ps| <= j < |r.people| ==> r.people[j].name == NewPersonName(j))
            && (forall j, k :: |ps| <= j < k < |r.people| ==> r.people[j].name != r.people[k].name)
  {
    RunShape(Start(ps, nextId), embs, labels, ls, dist, mean);
    NumberedNamesDistinct(Run(Start(ps, nextId), embs, labels, ls, dist, mean).people, |ps|);
  }

  /** Rows from `from` on named `Person{k}` for their own position `k` have
      pairwise different names. */
  lemma {:induction false} NumberedNamesDistinct(rs: seq<Person>, from: nat)
    requires forall j :: from <= j < |rs| ==> rs[j].name == NewPersonName(from + (j - from))
    ensures forall j :: from <= j < |rs| ==> rs[j].name == NewPersonName(j)
    ensures forall j, k :: from <= j < k < |rs| ==> rs[j].name != rs[k].name
  {
    forall j, k | from <= j < k < |rs|
      ensures rs[j].name != rs[k].name
    {
      PrefixedNamesDistinct("Person", j, k);
    }
  }

  /** The person a step creates joins the in-memory map with the cluster mean,
      so a later cluster that no earlier person matches, and that lies within
      the threshold of that mean, is folded into it. */
  lemma {:induction false} CreatedPersonIsMatchable(s: RunState, embs: seq<Embedding>, labels: seq<int>, lab: int,
                                 dist: (Embedding, Embedding) -> real,
                                 mean: seq<Embedding> -> Embedding, later: Embedding)
    requires Inv(s) && |embs| == |labels|
    requires Step(s, embs, labels, lab, dist, mean).matched == s.matched
    requires forall i :: 0 <= i < |s.people| ==> !IsMatch(later, s.people[i].centroid, dist)
    requires dist(later, mean(ClusterEmbeddings(embs, labels, lab))) < MatchThreshold
    ensures FindMatchingPerson(later, Entries(Step(s, embs, labels, lab, dist, mean).people), dist)
            == Some(s.nextId)
  {
    StepCreated(s, embs, labels, lab, dist, mean);
    var r := Step(s, embs, labels, lab, dist, mean);
    var m := Entries(r.people);
    assert m[|s.people|] == Entry(s.nextId, Some(mean(ClusterEmbeddings(embs, labels, lab))));
    forall k | 0 <= k < |s.people| ensures !IsMatch(later, m[k].centroid, dist) {
      assert m[k].centroid == s.people[k].centroid;
    }
    var found := FindMatchingPerson(later, m, dist);
    assert found.Some?;
    var j :| 0 <= j < |m| && m[j].personId == found.value && IsMatch(later, m[j].centroid, dist);
    assert j == |s.people|;
  }

  // ------------------------------------------------ the whole assignment

  function Embeddings(fs: seq<Face>): (r: seq<Embedding>)
    ensures |r| == |fs|
    ensures forall i :: 0 <= i < |fs| ==> r[i] == fs[i].embedding
  {
    seq(|fs|, i requires 0 <= i < |fs| => fs[i].embedding)
  }

  /** The face table after `_update_faces_with_person_ids`. */
  function AssignFaces(fs: seq<Face>, labels: seq<int>, labelToPerson: map<int, nat>): seq<Face>
    requires |labels| == |fs|
    requires forall i :: 0 <= i < |labels| ==> labels[i] in labelToPerson
  {
    seq(|fs|, i requires 0 <= i < |fs| => fs[i].(personId := Some(labelToPerson[labels[i]])))
  }

  /** The reconciliation of all unique labels against the people table. */
  function Resolve(t: Tables, labels: seq<int>, dist: (Embedding, Embedding) -> real,
                   mean: seq<Embedding> -> Embedding): (r: RunState)
    requires ValidTables(t) && |labels| == |t.faces|
    ensures Inv(r)
  {
    Run(Start(t.people, t.nextPersonId), Embeddings(t.faces), labels, Unique(labels), dist, mean)
  }

  lemma {:induction false} LabelsResolved(t: Tables, labels: seq<int>, dist: (Embedding, Embedding) -> real,
                       mean: seq<Embedding> -> Embedding)
    requires ValidTables(t) && |labels| == |t.faces|
    ensures var r := Resolve(t, labels, dist, mean);
            && (forall l :: l in r.labelToPerson <==> l in labels)
            && (forall i :: 0 <= i < |labels| ==> labels[i] in r.labelToPerson)
            && MapsToPeople(r.labelToPerson, r.people)
  {
    RunLabels(Start(t.people, t.nextPersonId), Embeddings(t.faces), labels, Unique(labels), dist, mean);
    assert forall i :: 0 <= i < |labels| ==> labels[i] in labels;
  }

  /** The tables after `assign_person_ids`: unchanged without face rows;
      otherwise people as reconciled and every face carrying its label's person. */
  function AssignSpec(t: Tables, labels: seq<int>, dist: (Embedding, Embedding) -> real,
                      mean: seq<Embedding> -> Embedding): (r: Tables)
    requires ValidTables(t) && |labels| == |t.faces|
    ensures ValidTables(r)
  {
    if |t.faces| == 0 then t
    else
      LabelsResolved(t, labels, dist, mean);
      var s := Resolve(t, labels, dist, mean);
      t.(people := s.people, nextPersonId := s.nextId,
         faces := AssignFaces(t.faces, labels, s.labelToPerson))
  }

  /** Every face gets the person of its own label, so faces that share a
      label share a person; that person is a row of the people table; nothing
      else about a face, and nothing about photos, changes. */
  lemma {:induction false} AssignGivesEveryFaceItsLabelsPerson(t: Tables, labels: seq<int>,
                                             dist: (Embedding, Embedding) -> real,
                                             mean: seq<Embedding> -> Embedding)
    requires ValidTables(t) && |labels| == |t.faces|
    ensures var r := AssignSpec(t, labels, dist, mean);
            && r.photos == t.photos && |r.faces| == |t.faces|
            && (forall i :: 0 <= i < |t.faces| ==>
                  && r.faces[i] == t.faces[i].(personId := r.faces[i].personId)
                  && r.faces[i].personId.Some?
                  && exists k :: 0 <= k < |r.people| && r.people[k].id == r.faces[i].personId.value)
            && (forall i, j :: 0 <= i < |t.faces| && 0 <= j < |t.faces| && labels[i] == labels[j] ==>
                  r.faces[i].personId == r.faces[j].personId)
  {
    if |t.faces| > 0 {
      var s := AssignSpecShape(t, labels, dist, mean);
      var fs := AssignFaces(t.faces, labels, s.labelToPerson);
      forall i | 0 <= i < |t.faces|
        ensures exists k :: 0 <= k < |s.people| && s.people[k].id == fs[i].personId.value
      {
        var l := labels[i];
        assert l in s.labelToPerson;
        var k :| 0 <= k < |s.people| && s.people[k].id == s.labelToPerson[l];
        assert fs[i].personId == Some(s.labelToPerson[l]);
      }
    }
  }

  /** With face rows, `assign_person_ids` writes the reconciled people and
      each face's label's person, and every label is resolved. */
  lemma {:induction false} AssignSpecShape(t: Tables, labels: seq<int>, dist: (Embedding, Embedding) -> real,
                        mean: seq<Embedding> -> Embedding)
    returns (s: RunState)
    requires ValidTables(t) && |labels| == |t.faces| && |t.faces| > 0
    ensures s == Resolve(t, labels, dist, mean)
    ensures forall i :: 0 <= i < |labels| ==> labels[i] in s.labelToPerson
    ensures MapsToPeople(s.labelToPerson, s.people)
    ensures AssignSpec(t, labels, dist, mean)
            == t.(people := s.people, nextPersonId := s.nextId,
                  faces := AssignFaces(t.faces, labels, s.labelToPerson))
  {
    LabelsResolved(t, labels, dist, mean);
    s := Resolve(t, labels, dist, mean);
  }

  /** The reconciliation keeps every existing person's row, id and name, and
      appends people numbered from the next free id, named `Person{k}` at
      position `k`; created plus matched clusters equals the number of unique
      labels. */
  lemma {:induction false} ResolvePeople(t: Tables, labels: seq<int>, dist: (Embedding, Embedding) -> real,
                      mean: seq<Embedding> -> Embedding)
    requires ValidTables(t) && |labels| == |t.faces|
    ensures var r := Resolve(t, labels, dist, mean);
            && |t.people| <= |r.people|
            && (forall i :: 0 <= i < |t.people| ==>
                  r.people[i].id == t.people[i].id && r.people[i].name == t.people[i].name)
            && (forall j :: |t.people| <= j < |r.people| ==>
                  && r.people[j].id == t.nextPersonId + (j - |t.people|)
                  && r.people[j].name == NewPersonName(j))
            && (|r.people| - |t.people|) + r.matched == |Unique(labels)|
  {
    var s0 := Start(t.people, t.nextPersonId);
    RunShape(s0, Embeddings(t.faces), labels, Unique(labels), dist, mean);
    var r := Run(s0, Embeddings(t.faces), labels, Unique(labels), dist, mean);
    assert r == Resolve(t, labels, dist, mean);
    forall j | |t.people| <= j < |r.people|
      ensures r.people[j].name == NewPersonName(j)
    {
      assert s0.nextIndex + (j - |s0.people|) == j;
    }
  }

  /** Existing people keep their row, id and name; when there were face rows,
      the created people follow them, named `Person{k}` at position `k`, and
      created plus matched clusters equals the number of unique labels. */
  lemma {:induction false} AssignPeople(t: Tables, labels: seq<int>, dist: (Embedding, Embedding) -> real,
                     mean: seq<Embedding> -> Embedding)
    requires ValidTables(t) && |labels| == |t.faces|
    ensures var r := AssignSpec(t, labels, dist, mean);
            && |t.people| <= |r.people|
            && (forall i :: 0 <= i < |t.people| ==>
                  r.people[i].id == t.people[i].id && r.people[i].name == t.people[i].name)
            && (forall j :: |t.people| <= j < |r.people| ==>
                  && r.people[j].id == t.nextPersonId + (j - |t.people|)
                  && r.people[j].name == NewPersonName(j))
            && (|t.faces| > 0 ==>
                  (|r.people| - |t.people|) + Resolve(t, labels, dist, mean).matched == |Unique(labels)|)
  {
    if |t.faces| > 0 {
      ResolvePeople(t, labels, dist, mean);
      assert AssignSpec(t, labels, dist, mean).people == Resolve(t, labels, dist, mean).people;
    }
  }

  /** A person stored with a NULL centroid still has it afterwards and no face
      is assigned to that person by the run. */
  lemma {:induction false} AssignKeepsNullCentroid(t: Tables, labels: seq<int>, dist: (Embedding, Embedding) -> real,
                                mean: seq<Embedding> -> Embedding, i: nat)
    requires ValidTables(t) && |labels| == |t.faces|
    requires i < |t.people| && t.people[i].centroid.None?
    ensures var r := AssignSpec(t, labels, dist, mean);
            && i < |r.people| && r.people[i] == t.people[i]
            && forall f :: 0 <= f < |r.faces| ==> r.faces[f].personId != Some(t.people[i].id)
  {
    if |t.faces| > 0 {
      var s := AssignSpecShape(t, labels, dist, mean);
      RunKeepsNullCentroid(Start(t.people, t.nextPersonId), Embeddings(t.faces), labels, Unique(labels),
                           dist, mean, i);
      var fs := AssignFaces(t.faces, labels, s.labelToPerson);
      forall f | 0 <= f < |fs| ensures fs[f].personId != Some(t.people[i].id) {
        var l := labels[f];
        assert l in s.labelToPerson;
        assert fs[f].personId == Some(s.labelToPerson[l]);
      }
    }
  }

  // ----------------------------------------------------------- the methods

  /** `_load_faces`: the id and embedding of every face row, in table order. */
  method LoadFaces(db: Database) returns (ids: seq<nat>, embs: seq<Embedding>)
    ensures |ids| == |db.faces| && |embs| == |db.faces|
    ensures forall i :: 0 <= i < |db.faces| ==> ids[i] == db.faces[i].id && embs[i] == db.faces[i].embedding
  {
    ids, embs := [], [];
    for i := 0 to |db.faces|
      invariant |ids| == i && |embs| == i
      invariant forall k :: 0 <= k < i ==> ids[k] == db.faces[k].id && embs[k] == db.faces[k].embedding
    {
      ids := ids + [db.faces[i].id];
      embs := embs + [db.faces[i].embedding];
    }
  }

  /** `_load_people_embeddings`: every person in table order, a NULL centroid
      kept as None. */
  method LoadPeopleEmbeddings(db: Database) returns (m: seq<Entry>)
    requires db.Valid()
    ensures |m| == |db.people|
    ensures forall i :: 0 <= i < |db.people| ==>
              m[i].personId == db.people[i].id && m[i].centroid == db.people[i].centroid
  {
    m := [];
    for i := 0 to |db.people|
      invariant m == Entries(db.people[..i])
    {
      var p := db.people[i];
      DictSetMirrorsInsert(db.people[..i], p.id, p.name, p.centroid);
      m := DictSet(m, p.id, p.centroid);
      assert db.people[..i + 1] == db.people[..i] + [p];
    }
    assert db.people[..|db.people|] == db.people;
  }

  /** `_assign_clusters_to_people`: the loop over unique labels, writing to
      the people table and to the in-memory map in step. */
  method AssignClustersToPeople(db: Database, embs: seq<Embedding>, labels: seq<int>, uniq: seq<int>,
                                peopleMap: seq<Entry>, dist: (Embedding, Embedding) -> real,
                                mean: seq<Embedding> -> Embedding)
    returns (labelToPerson: map<int, nat>)
    requires PersonIdsOk(db.people, db.nextPersonId)
    requires peopleMap == Entries(db.people)
    requires |embs| == |labels|
    modifies db
    ensures var r := Run(Start(old(db.people), old(db.nextPersonId)), embs, labels, uniq, dist, mean);
            && db.people == r.people && db.nextPersonId == r.nextId && labelToPerson == r.labelToPerson
    ensures db.photos == old(db.photos) && db.faces == old(db.faces)
    ensures db.nextPhotoId == old(db.nextPhotoId) && db.nextFaceId == old(db.nextFaceId)
  {
    labelToPerson := map[];
    var nextIndex: nat := |peopleMap|;
    var m := peopleMap;
    ghost var matched := 0;
    ghost var s0 := Start(db.people, db.nextPersonId);
    for k := 0 to |uniq|
      invariant RunState(db.people, labelToPerson, nextIndex, db.nextPersonId, matched)
                == Run(s0, embs, labels, uniq[..k], dist, mean)
      invariant m == Entries(db.people)
      invariant db.photos == old(db.photos) && db.faces == old(db.faces)
      invariant db.nextPhotoId == old(db.nextPhotoId) && db.nextFaceId == old(db.nextFaceId)
    {
      assert uniq[..k + 1][..k] == uniq[..k];
      m, labelToPerson, nextIndex, matched :=
        AssignCluster(db, m, labelToPerson, nextIndex, matched, embs, labels, uniq[k], dist, mean);
    }
    assert uniq[..|uniq|] == uniq;
  }

  /** One iteration of `_assign_clusters_to_people`'s loop: the cluster's mean
      is matched against the map; a match updates that person's centroid in
      the table and the map, otherwise a new person is inserted into both. */
  method AssignCluster(db: Database, m: seq<Entry>, labelToPerson: map<int, nat>, nextIndex: nat,
                       ghost matched: nat, embs: seq<Embedding>, labels: seq<int>, lab: int,
                       dist: (Embedding, Embedding) -> real, mean: seq<Embedding> -> Embedding)
    returns (m': seq<Entry>, labelToPerson': map<int, nat>, nextIndex': nat, ghost matched': nat)
    requires PersonIdsOk(db.people, db.nextPersonId)
    requires m == Entries(db.people)
    requires |embs| == |labels|
    modifies db
    ensures RunState(db.people, labelToPerson', nextIndex', db.nextPersonId, matched')
            == Step(RunState(old(db.people), labelToPerson, nextIndex, old(db.nextPersonId), matched),
                    embs, labels, lab, dist, mean)
    ensures m' == Entries(db.people)
    ensures db.photos == old(db.photos) && db.faces == old(db.faces)
    ensures db.nextPhotoId == old(db.nextPhotoId) && db.nextFaceId == old(db.nextFaceId)
  {
    var cluster := ClusterEmbeddings(embs, labels, lab);
    var avg := mean(cluster);
    ghost var s := RunState(db.people, labelToPerson, nextIndex, db.nextPersonId, matched);
    EntriesDistinct(db.people, db.nextPersonId);
    var found := FindMatchingPerson(avg, m, dist);
    FindMatchingIsFirstMatch(avg, db.people, db.nextPersonId, dist);
    if found.Some? {
      var personId := found.value;
      ghost var i := FirstMatch(avg, db.people, dist).value;
      StepOnMatch(s, embs, labels, lab, dist, mean, i);
      LookupAt(m, i);
      var c := Lookup(m, personId).value.centroid.value;
      var newAvg := mean(cluster + [c]);
      UpdateCentroidAt(db.people, db.nextPersonId, i, Some(newAvg));
      DictSetMirrorsUpdate(db.people, personId, Some(newAvg));
      db.UpdatePersonCentroid(personId, Some(newAvg));
      m' := DictSet(m, personId, Some(newAvg));
      nextIndex' := nextIndex;
      matched' := matched + 1;
      labelToPerson' := labelToPerson[lab := personId];
    } else {
      StepOnNoMatch(s, embs, labels, lab, dist, mean);
      var name := NewPersonName(nextIndex);
      DictSetMirrorsInsert(db.people, db.nextPersonId, name, Some(avg));
      var personId := db.InsertPerson(name, Some(avg));
      m' := DictSet(m, personId, Some(avg));
      nextIndex' := nextIndex + 1;
      matched' := matched;
      labelToPerson' := labelToPerson[lab := personId];
    }
  }

  /** `_update_faces_with_person_ids`: one UPDATE per face, by face id. */
  method UpdateFacesWithPersonIds(db: Database, faceIds: seq<nat>, labels: seq<int>,
                                  labelToPerson: map<int, nat>)
    requires FaceIdsOk(db.faces, db.nextFaceId)
    requires |faceIds| == |labels| == |db.faces|
    requires forall i :: 0 <= i < |faceIds| ==> faceIds[i] == db.faces[i].id
    requires forall i :: 0 <= i < |labels| ==> labels[i] in labelToPerson
    modifies db
    ensures db.Snapshot() == old(db.Snapshot()).(faces := AssignFaces(old(db.faces), labels, labelToPerson))
  {
    for i := 0 to |faceIds|
      invariant db.Snapshot() == old(db.Snapshot()).(faces := db.faces)
      invariant |db.faces| == |old(db.faces)|
      invariant forall j :: 0 <= j < i ==>
                  db.faces[j] == old(db.faces[j]).(personId := Some(labelToPerson[labels[j]]))
      invariant forall j :: i <= j < |db.faces| ==> db.faces[j] == old(db.faces[j])
    {
      db.UpdateFacePerson(faceIds[i], labelToPerson[labels[i]]);
    }
  }

  /** `assign_person_ids`, with `labels` the clustering of the face embeddings
      (one label per face row). */
  method AssignPersonIds(db: Database, labels: seq<int>, dist: (Embedding, Embedding) -> real,
                         mean: seq<Embedding> -> Embedding) returns (summary: Option<Summary>)
    requires db.Valid()
    requires |labels| == |db.faces|
    modifies db
    ensures db.Snapshot() == AssignSpec(old(db.Snapshot()), labels, dist, mean)
    ensures |old(db.faces)| == 0 ==> db.Snapshot() == old(db.Snapshot()) && summary == None
    ensures |old(db.faces)| > 0 ==> summary == Some(Summary(|old(db.faces)|, |Unique(labels)|))
    ensures db.Valid()
  {
    var faceIds, embs := LoadFaces(db);
    if |faceIds| == 0 {
      return None;
    }
    assert embs == Embeddings(db.faces);
    ghost var t := db.Snapshot();
    var uniq := Unique(labels);
    var m := LoadPeopleEmbeddings(db);
    assert m == Entries(db.people);
    var labelToPerson := AssignClustersToPeople(db, embs, labels, uniq, m, dist, mean);
    LabelsResolved(t, labels, dist, mean);
    UpdateFacesWithPersonIds(db, faceIds, labels, labelToPerson);
    summary := Some(Summary(|faceIds|, |uniq|));
  }
}
