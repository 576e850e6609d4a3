/** The list operations the record store is built from: `findIndex`/`find` by id,
    `filter`, and the upsert that every `save…` performs (replace at the first index with
    the same id, else push). Records are generic; `key` extracts the id. */
module Records {
  import opened Wrappers

  /** The ids of a list, position by position. */
  function Keys<T>(s: seq<T>, key: T -> string): (ks: seq<string>)
    ensures |ks| == |s| && forall i :: 0 <= i < |s| ==> ks[i] == key(s[i])
  {
    seq(|s|, i requires 0 <= i < |s| => key(s[i]))
  }

  /** A non-empty list is its front followed by its last element. */
  lemma Snoc<T>(s: seq<T>)
    requires s != []
    ensures s == s[..|s| - 1] + [s[|s| - 1]]
  {
  }

  lemma PrefixSnoc<T>(s: seq<T>, i: nat)
    requires i < |s|
    ensures s[..i + 1] == s[..i] + [s[i]]
  {
  }

  lemma KeysSnoc<T>(s: seq<T>, x: T, key: T -> string)
    ensures Keys(s + [x], key) == Keys(s, key) + [key(x)]
  {
  }

  /** No two records share an id. */
  predicate UniqueKeys<T>(s: seq<T>, key: T -> string) {
    forall i, j :: 0 <= i < j < |s| ==> key(s[i]) != key(s[j])
  }

  /** `s.findIndex(x => key(x) === k)`, with -1 as None. */
  function FindIndex<T>(s: seq<T>, key: T -> string, k: string): (r: Option<nat>)
    ensures r.Some? ==> r.value < |s| && key(s[r.value]) == k
    ensures r.Some? ==> forall j :: 0 <= j < r.value ==> key(s[j]) != k
    ensures r.None? <==> k !in Keys(s, key)
  {
    if s == [] then None
    else if key(s[0]) == k then Some(0)
    else
      match FindIndex(s[1..], key, k)
      case None =>
        assert forall j :: 1 <= j < |s| ==> s[j] == s[1..][j - 1];
        None
      case Some(i) => Some(i + 1)
  }

  /** `s.find(x => key(x) === k) || null`: the first record with id k. */
  function Find<T>(s: seq<T>, key: T -> string, k: string): (r: Option<T>)
    ensures r.Some? <==> k in Keys(s, key)
    ensures r.Some? ==> r.value in s && key(r.value) == k
  {
    match FindIndex(s, key, k)
    case None => None
    case Some(i) => Some(s[i])
  }

  /** In a list with unique ids, Find returns the record at the index holding that id. */
  lemma FindUnique<T>(s: seq<T>, key: T -> string, i: nat)
    requires UniqueKeys(s, key) && i < |s|
    ensures Find(s, key, key(s[i])) == Some(s[i])
  {
    assert Keys(s, key)[i] == key(s[i]);
  }

  /** Find returns the first record with the id. */
  lemma FindFirst<T>(s: seq<T>, key: T -> string, k: string)
    requires Find(s, key, k).Some?
    ensures exists i :: 0 <= i < |s| && s[i] == Find(s, key, k).value && forall j :: 0 <= j < i ==> key(s[j]) != k
  {
    var i := FindIndex(s, key, k).value;
    assert s[i] == Find(s, key, k).value;
  }

  /** One `save…` call: replace the first record with the same id, else append. */
  function Upsert<T>(s: seq<T>, key: T -> string, x: T): (r: seq<T>)
    ensures Find(r, key, key(x)) == Some(x)
    ensures key(x) in Keys(s, key) ==> |r| == |s|
    ensures key(x) !in Keys(s, key) ==> r == s + [x]
    ensures forall j :: 0 <= j < |s| && key(s[j]) != key(x) ==> r[j] == s[j]
    ensures Keys(r, key) == if key(x) in Keys(s, key) then Keys(s, key) else Keys(s, key) + [key(x)]
  {
    match FindIndex(s, key, key(x))
    case Some(i) =>
      var r := s[i := x];
      assert Keys(r, key)[i] == key(x);
      r
    case None =>
      var r := s + [x];
      assert Keys(r, key)[|s|] == key(x);
      r
  }

  /** A batch `save…` (`batch.forEach(upsert)`): each element upserted in turn. */
  function UpsertAll<T>(s: seq<T>, key: T -> string, batch: seq<T>): seq<T> {
    if batch == [] then s
    else Upsert(UpsertAll(s, key, batch[..|batch| - 1]), key, batch[|batch| - 1])
  }

  /** Saving one more element of a batch is one more upsert. */
  lemma UpsertAllPrefixStep<T>(s: seq<T>, key: T -> string, batch: seq<T>, i: nat)
    requires i < |batch|
    ensures UpsertAll(s, key, batch[..i + 1]) == Upsert(UpsertAll(s, key, batch[..i]), key, batch[i])
  {
    assert batch[..i + 1][..i] == batch[..i];
  }

  /** Upserting a record leaves ids unique when they were unique. */
  lemma UpsertKeepsUnique<T>(s: seq<T>, key: T -> string, x: T)
    requires UniqueKeys(s, key)
    ensures UniqueKeys(Upsert(s, key, x), key)
  {
    var r := Upsert(s, key, x);
    var ks, kr := Keys(s, key), Keys(r, key);
    forall i, j | 0 <= i < j < |r| ensures key(r[i]) != key(r[j]) {
      assert kr[i] == key(r[i]) && kr[j] == key(r[j]);
      if key(x) !in ks {
        if j == |s| {
          assert kr[i] == ks[i];
        } else {
          assert kr[i] == ks[i] && kr[j] == ks[j];
        }
      } else {
        assert kr[i] == ks[i] && kr[j] == ks[j];
      }
    }
  }

  /** A batch upsert leaves ids unique when they were unique, whatever the batch holds. */
  lemma {:induction false} UpsertAllKeepsUnique<T>(s: seq<T>, key: T -> string, batch: seq<T>)
    requires UniqueKeys(s, key)
    ensures UniqueKeys(UpsertAll(s, key, batch), key)
  {
    if batch != [] {
      UpsertAllKeepsUnique(s, key, batch[..|batch| - 1]);
      UpsertKeepsUnique(UpsertAll(s, key, batch[..|batch| - 1]), key, batch[|batch| - 1]);
    }
  }

  /** FindIndex returns an index holding k before which no record holds k. */
  lemma FindIndexAt<T>(s: seq<T>, key: T -> string, k: string, a: nat)
    requires a < |s| && key(s[a]) == k && forall j :: 0 <= j < a ==> key(s[j]) != k
    ensures FindIndex(s, key, k) == Some(a)
  {
    assert Keys(s, key)[a] == k;
  }

  /** Upserting x does not change which record is found under another id. */
  lemma FindAfterUpsertOther<T>(s: seq<T>, key: T -> string, x: T, k: string)
    requires key(x) != k
    ensures Find(Upsert(s, key, x), key, k) == Find(s, key, k)
  {
    var r := Upsert(s, key, x);
    var kr := Keys(r, key);
    match FindIndex(s, key, k)
    case Some(a) =>
      assert r[a] == s[a];
      forall j | 0 <= j < a ensures key(r[j]) != k {
        assert kr[j] == Keys(s, key)[j];
      }
      FindIndexAt(r, key, k, a);
    case None =>
      assert k !in kr;
  }

  /** The last record in the batch with id k. */
  function LastWithKey<T>(batch: seq<T>, key: T -> string, k: string): (r: Option<T>)
    ensures r.Some? <==> k in Keys(batch, key)
  {
    if batch == [] then None
    else if key(batch[|batch| - 1]) == k then Some(batch[|batch| - 1])
    else
      var p := batch[..|batch| - 1];
      assert forall i :: 0 <= i < |p| ==> Keys(p, key)[i] == Keys(batch, key)[i];
      assert k in Keys(batch, key) ==> k in Keys(p, key);
      LastWithKey(p, key, k)
  }

  /** Last write wins: after a batch upsert, each id of the batch finds the batch's last
      record with that id, and every other id finds what it found before. */
  lemma {:induction false} UpsertAllLastWriteWins<T>(s: seq<T>, key: T -> string, batch: seq<T>, k: string)
    ensures k in Keys(batch, key) ==> Find(UpsertAll(s, key, batch), key, k) == LastWithKey(batch, key, k)
    ensures k !in Keys(batch, key) ==> Find(UpsertAll(s, key, batch), key, k) == Find(s, key, k)
  {
    if batch != [] {
      var p, x := batch[..|batch| - 1], batch[|batch| - 1];
      var t := UpsertAll(s, key, p);
      assert UpsertAll(s, key, batch) == Upsert(t, key, x);
      UpsertAllLastWriteWins(s, key, p, k);
      Snoc(batch);
      KeysSnoc(p, x, key);
      if key(x) != k {
        FindAfterUpsertOther(t, key, x, k);
        assert LastWithKey(batch, key, k) == LastWithKey(p, key, k);
      }
    }
  }

  /** A batch whose ids are distinct can be read back record by record after it is saved. */
  lemma UpsertAllReadBack<T>(s: seq<T>, key: T -> string, batch: seq<T>, i: nat)
    requires UniqueKeys(batch, key) && i < |batch|
    ensures Find(UpsertAll(s, key, batch), key, key(batch[i])) == Some(batch[i])
  {
    assert Keys(batch, key)[i] == key(batch[i]);
    UpsertAllLastWriteWins(s, key, batch, key(batch[i]));
    LastWithKeyUnique(batch, key, i);
  }

  lemma {:induction false} LastWithKeyUnique<T>(batch: seq<T>, key: T -> string, i: nat)
    requires UniqueKeys(batch, key) && i < |batch|
    ensures LastWithKey(batch, key, key(batch[i])) == Some(batch[i])
  {
    if i < |batch| - 1 {
      var p := batch[..|batch| - 1];
      assert p[i] == batch[i];
      LastWithKeyUnique(p, key, i);
    }
  }

  /** The stored records a batch does not mention keep their place and value; the ids of
      the list only grow, and the positions that were there keep their ids. */
  lemma {:induction false} UpsertAllKeepsOthers<T>(s: seq<T>, key: T -> string, batch: seq<T>)
    ensures |UpsertAll(s, key, batch)| >= |s|
    ensures forall j :: 0 <= j < |s| ==> key(UpsertAll(s, key, batch)[j]) == key(s[j])
    ensures forall j :: 0 <= j < |s| && key(s[j]) !in Keys(batch, key) ==> UpsertAll(s, key, batch)[j] == s[j]
  {
    if batch != [] {
      var p, x := batch[..|batch| - 1], batch[|batch| - 1];
      UpsertAllKeepsOthers(s, key, p);
      var t := UpsertAll(s, key, p);
      var r := Upsert(t, key, x);
      assert UpsertAll(s, key, batch) == r;
      Snoc(batch);
      KeysSnoc(p, x, key);
      UpsertKeepsPositions(t, key, x);
      forall j | 0 <= j < |s| && key(s[j]) !in Keys(batch, key) ensures r[j] == s[j] {
        assert key(s[j]) !in Keys(p, key) && key(s[j]) != key(x);
      }
    }
  }

  /** One upsert keeps every position and its id, and changes only the position of x's id. */
  lemma UpsertKeepsPositions<T>(t: seq<T>, key: T -> string, x: T)
    ensures |Upsert(t, key, x)| >= |t|
    ensures forall j :: 0 <= j < |t| ==> key(Upsert(t, key, x)[j]) == key(t[j])
  {
    var r := Upsert(t, key, x);
    forall j | 0 <= j < |t| ensures key(r[j]) == key(t[j]) {
      assert Keys(r, key)[j] == key(r[j]) && Keys(t, key)[j] == key(t[j]);
    }
  }

  /** The first occurrences of a list of ids, in order. */
  function Dedup(ks: seq<string>): (r: seq<string>)
    ensures forall k :: k in r <==> k in ks
    ensures forall i, j :: 0 <= i < j < |r| ==> r[i] != r[j]
  {
    if ks == [] then []
    else
      var d := Dedup(ks[..|ks| - 1]);
      assert forall k :: k in ks <==> k in ks[..|ks| - 1] || k == ks[|ks| - 1];
      if ks[|ks| - 1] in d then d else d + [ks[|ks| - 1]]
  }

  /** The ids of ks that are not among the ids in stored, in order. */
  function Unseen(ks: seq<string>, stored: seq<string>): (r: seq<string>)
    ensures forall k :: k in r <==> k in ks && k !in stored
  {
    if ks == [] then []
    else
      var u := Unseen(ks[..|ks| - 1], stored);
      assert forall k :: k in ks <==> k in ks[..|ks| - 1] || k == ks[|ks| - 1];
      if ks[|ks| - 1] in stored then u else u + [ks[|ks| - 1]]
  }

  lemma KeysSlice<T>(t: seq<T>, key: T -> string, n: nat)
    requires n <= |t|
    ensures Keys(t[n..], key) == Keys(t, key)[n..]
  {
  }

  /** One upsert on a list that starts with the stored records: the ids past the stored
      part grow by the new id only when it was not in the list. */
  lemma UpsertTail<T>(t: seq<T>, key: T -> string, n: nat, x: T)
    requires n <= |t|
    ensures n <= |Upsert(t, key, x)|
    ensures Keys(Upsert(t, key, x)[n..], key)
         == if key(x) in Keys(t, key) then Keys(t[n..], key) else Keys(t[n..], key) + [key(x)]
  {
    var r := Upsert(t, key, x);
    KeysSlice(t, key, n);
    KeysSlice(r, key, n);
  }

  lemma UnseenStep(kb: seq<string>, ks: seq<string>)
    requires kb != []
    ensures Unseen(kb, ks)
         == if kb[|kb| - 1] in ks then Unseen(kb[..|kb| - 1], ks) else Unseen(kb[..|kb| - 1], ks) + [kb[|kb| - 1]]
  {
  }

  lemma DedupStep(l: seq<string>, k: string)
    ensures Dedup(l + [k]) == if k in l then Dedup(l) else Dedup(l) + [k]
  {
    assert (l + [k])[..|l|] == l;
  }

  /** The ids a batch upsert appends are the batch's ids that were not stored, each once,
      in the order they first occur in the batch. */
  lemma {:induction false} UpsertAllAppendsNew<T>(s: seq<T>, key: T -> string, batch: seq<T>)
    ensures |UpsertAll(s, key, batch)| >= |s|
    ensures Keys(UpsertAll(s, key, batch)[|s|..], key) == Dedup(Unseen(Keys(batch, key), Keys(s, key)))
  {
    UpsertAllKeepsOthers(s, key, batch);
    if batch != [] {
      var p, x := batch[..|batch| - 1], batch[|batch| - 1];
      UpsertAllAppendsNew(s, key, p);
      Snoc(batch);
      KeysSnoc(p, x, key);
      AppendsNewStep(s, key, p, x);
    }
  }

  /** An id is in a list that starts with the ids of s iff it is in s or in the rest. */
  lemma KeysInPrefixOrRest<T>(t: seq<T>, s: seq<T>, key: T -> string, k: string)
    requires |t| >= |s| && forall j :: 0 <= j < |s| ==> key(t[j]) == key(s[j])
    ensures k in Keys(t, key) <==> k in Keys(s, key) || k in Keys(t[|s|..], key)
  {
    if k in Keys(t, key) {
      var j :| 0 <= j < |t| && Keys(t, key)[j] == k;
      if j < |s| {
        assert Keys(s, key)[j] == k;
      } else {
        assert Keys(t[|s|..], key)[j - |s|] == k;
      }
    }
    if k in Keys(s, key) {
      var j :| 0 <= j < |s| && Keys(s, key)[j] == k;
      assert Keys(t, key)[j] == k;
    }
    if k in Keys(t[|s|..], key) {
      var j :| 0 <= j < |t| - |s| && Keys(t[|s|..], key)[j] == k;
      assert Keys(t, key)[j + |s|] == k;
    }
  }

  /** One more upsert after the batch p: the appended ids follow the batch p + [x]. */
  lemma AppendsNewStep<T>(s: seq<T>, key: T -> string, p: seq<T>, x: T)
    requires |UpsertAll(s, key, p)| >= |s|
    requires Keys(UpsertAll(s, key, p)[|s|..], key) == Dedup(Unseen(Keys(p, key), Keys(s, key)))
    ensures |Upsert(UpsertAll(s, key, p), key, x)| >= |s|
    ensures Keys(Upsert(UpsertAll(s, key, p), key, x)[|s|..], key) == Dedup(Unseen(Keys(p, key) + [key(x)], Keys(s, key)))
  {
    var t := UpsertAll(s, key, p);
    var ks, L := Keys(s, key), Unseen(Keys(p, key), Keys(s, key));
    UpsertAllKeepsOthers(s, key, p);
    KeysInPrefixOrRest(t, s, key, key(x));
    UpsertTail(t, key, |s|, x);
    assert (Keys(p, key) + [key(x)])[..|Keys(p, key)|] == Keys(p, key);
    UnseenStep(Keys(p, key) + [key(x)], ks);
    DedupStep(L, key(x));
  }

  /** `s.filter(p)`. */
  function Filter<T(!new)>(s: seq<T>, p: T -> bool): (r: seq<T>)
    ensures |r| <= |s|
    ensures forall x :: x in r <==> x in s && p(x)
  {
    if s == [] then []
    else
      var f := Filter(s[..|s| - 1], p);
      assert forall x :: x in s <==> x in s[..|s| - 1] || x == s[|s| - 1];
      if p(s[|s| - 1]) then f + [s[|s| - 1]] else f
  }

  /** Filtering distributes over concatenation. */
  lemma {:induction false} FilterAppend<T(!new)>(a: seq<T>, b: seq<T>, p: T -> bool)
    ensures Filter(a + b, p) == Filter(a, p) + Filter(b, p)
  {
    if b != [] {
      var b' := b[..|b| - 1];
      assert (a + b)[..|a + b| - 1] == a + b';
      assert (a + b)[|a + b| - 1] == b[|b| - 1];
      FilterAppend(a, b', p);
      var x := b[|b| - 1];
      var tail := if p(x) then [x] else [];
      assert Filter(a + b, p) == Filter(a + b', p) + tail;
      assert Filter(b, p) == Filter(b', p) + tail;
    } else {
      assert a + b == a;
    }
  }

  /** Filtering by two tests that agree everywhere gives the same list. */
  lemma {:induction false} FilterSame<T(!new)>(s: seq<T>, p: T -> bool, q: T -> bool)
    requires forall x :: p(x) <==> q(x)
    ensures Filter(s, p) == Filter(s, q)
  {
    if s != [] {
      FilterSame(s[..|s| - 1], p, q);
    }
  }

  /** Filtering twice is filtering once by both tests. */
  lemma {:induction false} FilterFilter<T(!new)>(s: seq<T>, p: T -> bool, q: T -> bool, pq: T -> bool)
    requires forall x :: pq(x) <==> p(x) && q(x)
    ensures Filter(Filter(s, p), q) == Filter(s, pq)
  {
    if s != [] {
      var init, x := s[..|s| - 1], s[|s| - 1];
      FilterFilter(init, p, q, pq);
      if p(x) {
        FilterAppend(Filter(init, p), [x], q);
        assert [x][..0] == [];
      }
    }
  }

  /** Filtering by either of two exclusive tests keeps what each of them keeps, once. */
  lemma {:induction false} FilterSplit<T(!new)>(s: seq<T>, p: T -> bool, q: T -> bool, pq: T -> bool)
    requires forall x :: pq(x) <==> p(x) || q(x)
    requires forall x :: !(p(x) && q(x))
    ensures multiset(Filter(s, pq)) == multiset(Filter(s, p)) + multiset(Filter(s, q))
  {
    if s != [] {
      FilterSplit(s[..|s| - 1], p, q, pq);
    }
  }

  /** Filtering keeps ids unique. */
  lemma {:induction false} FilterKeepsUnique<T(!new)>(s: seq<T>, key: T -> string, p: T -> bool)
    requires UniqueKeys(s, key)
    ensures UniqueKeys(Filter(s, p), key)
  {
    if s != [] {
      var q := s[..|s| - 1];
      assert UniqueKeys(q, key);
      FilterKeepsUnique(q, key, p);
      var f := Filter(q, p);
      if p(s[|s| - 1]) {
        forall i | 0 <= i < |f| ensures key(f[i]) != key(s[|s| - 1]) {
          assert f[i] in q;
        }
      }
    }
  }

  /** `s.find(p)`: the first element satisfying p. */
  function FirstWhere<T>(s: seq<T>, p: T -> bool): (r: Option<T>)
    ensures r.Some? ==> r.value in s && p(r.value)
    ensures r.None? <==> forall i :: 0 <= i < |s| ==> !p(s[i])
    ensures r.Some? ==> exists i :: 0 <= i < |s| && s[i] == r.value && forall j :: 0 <= j < i ==> !p(s[j])
  {
    if s == [] then None
    else if p(s[0]) then Some(s[0])
    else
      var r := FirstWhere(s[1..], p);
      assert forall i :: 1 <= i < |s| ==> s[i] == s[1..][i - 1];
      if r.Some? then
        assert exists i :: 0 <= i < |s| && s[i] == r.value && forall j :: 0 <= j < i ==> !p(s[j]) by {
          var i :| 0 <= i < |s[1..]| && s[1..][i] == r.value && forall j :: 0 <= j < i ==> !p(s[1..][j]);
          assert s[i + 1] == r.value;
        }
        r
      else r
  }

  /** A batch whose ids are distinct and not yet stored is appended as it is. */
  lemma {:induction false} UpsertAllFresh<T>(s: seq<T>, key: T -> string, batch: seq<T>)
    requires UniqueKeys(batch, key)
    requires forall i :: 0 <= i < |batch| ==> key(batch[i]) !in Keys(s, key)
    ensures UpsertAll(s, key, batch) == s + batch
  {
    if batch != [] {
      var p, x := batch[..|batch| - 1], batch[|batch| - 1];
      UpsertAllFresh(s, key, p);
      assert key(x) !in Keys(s + p, key) by {
        forall i | 0 <= i < |s + p| ensures Keys(s + p, key)[i] != key(x) {
          if i >= |s| {
            assert (s + p)[i] == batch[i - |s|];
          } else {
            assert Keys(s, key)[i] == key(s[i]);
          }
        }
      }
      assert s + p + [x] == s + batch;
    }
  }

  /** `list.filter(x => fk(x) === k)` when k is truthy, else the whole list: the shape of
      every getter that takes an optional foreign key. */
  function Select<T(!new)>(s: seq<T>, fk: T -> string, k: Option<string>): (r: seq<T>)
    ensures !Truthy(k) ==> r == s
    ensures Truthy(k) ==> IsSubsequence(r, s) && forall x :: x in r <==> x in s && fk(x) == k.value
  {
    if Truthy(k) then
      FilterIsSubsequence(s, KeyIs(fk, k.value));
      Filter(s, KeyIs(fk, k.value))
    else s
  }

  /** The test `x => fk(x) === v`. */
  function KeyIs<T>(fk: T -> string, v: string): T -> bool {
    (x: T) => fk(x) == v
  }

  /** Filtering keeps a list whose every element passes. */
  lemma {:induction false} FilterAll<T(!new)>(s: seq<T>, p: T -> bool)
    requires forall i :: 0 <= i < |s| ==> p(s[i])
    ensures Filter(s, p) == s
  {
    if s != [] {
      FilterAll(s[..|s| - 1], p);
      assert s[..|s| - 1] + [s[|s| - 1]] == s;
    }
  }

  /** Filtering empties a list whose every element fails. */
  lemma FilterNone<T(!new)>(s: seq<T>, p: T -> bool)
    requires forall i :: 0 <= i < |s| ==> !p(s[i])
    ensures Filter(s, p) == []
  {
  }

  /** When exactly the element at c satisfies p, filtering keeps just that element. */
  lemma {:induction false} FilterOnly<T(!new)>(s: seq<T>, p: T -> bool, c: nat)
    requires c < |s| && forall j :: 0 <= j < |s| ==> (p(s[j]) <==> j == c)
    ensures Filter(s, p) == [s[c]]
  {
    var n := |s| - 1;
    var init := s[..n];
    if n == c {
      assert forall j :: 0 <= j < |init| ==> !p(init[j]);
      FilterNone(init, p);
    } else {
      FilterOnly(init, p, c);
    }
  }

  /** Selecting distributes over concatenation. */
  lemma SelectAppend<T(!new)>(a: seq<T>, b: seq<T>, fk: T -> string, k: Option<string>)
    ensures Select(a + b, fk, k) == Select(a, fk, k) + Select(b, fk, k)
  {
    if Truthy(k) {
      FilterAppend(a, b, KeyIs(fk, k.value));
    }
  }

  /** `list.filter(x => fk(x) !== k)`: the list without the records whose fk is k. */
  function Without<T(!new)>(s: seq<T>, fk: T -> string, k: string): (r: seq<T>)
    ensures IsSubsequence(r, s) && forall x :: x in r <==> x in s && fk(x) != k
  {
    var p := (x: T) => fk(x) != k;
    FilterIsSubsequence(s, p);
    Filter(s, p)
  }

  /** Dropping records keeps ids unique when they were unique. */
  lemma WithoutKeepsUnique<T(!new)>(s: seq<T>, fk: T -> string, k: string, key: T -> string)
    requires UniqueKeys(s, key)
    ensures UniqueKeys(Without(s, fk, k), key)
  {
    FilterKeepsUnique(s, key, (x: T) => fk(x) != k);
  }

  /** An element of a list with unique ids occurs in it once. */
  lemma {:induction false} CountOnce<T>(a: seq<T>, key: T -> string, p: nat)
    requires UniqueKeys(a, key) && p < |a|
    ensures multiset(a)[a[p]] == 1
  {
    var n := |a| - 1;
    assert a == a[..n] + [a[n]];
    assert forall m :: 0 <= m < n ==> a[m] != a[n];
    assert a[n] !in a[..n];
    if p < n {
      assert UniqueKeys(a[..n], key);
      CountOnce(a[..n], key, p);
      assert a[..n][p] == a[p];
    }
  }

  /** An element at two positions occurs at least twice. */
  lemma CountTwice<T>(b: seq<T>, i: nat, j: nat)
    requires i < j < |b| && b[i] == b[j]
    ensures multiset(b)[b[i]] >= 2
  {
    assert b == b[..i] + [b[i]] + b[i + 1..j] + [b[j]] + b[j + 1..];
  }

  /** Reordering a list keeps its ids unique. */
  lemma PermutationKeepsUniqueKeys<T>(a: seq<T>, b: seq<T>, key: T -> string)
    requires multiset(a) == multiset(b) && UniqueKeys(a, key)
    ensures UniqueKeys(b, key)
  {
    forall i, j | 0 <= i < j < |b| ensures key(b[i]) != key(b[j]) {
      if key(b[i]) == key(b[j]) {
        assert b[i] in multiset(a) && b[j] in multiset(a);
        var p :| 0 <= p < |a| && a[p] == b[i];
        var q :| 0 <= q < |a| && a[q] == b[j];
        assert p == q;
        CountTwice(b, i, j);
        CountOnce(a, key, p);
        assert false;
      }
    }
  }

  /** a is a (not necessarily contiguous) subsequence of b: it keeps b's relative order. */
  predicate IsSubsequence<T(==)>(a: seq<T>, b: seq<T>)
    decreases |b|
  {
    if a == [] then true
    else if b == [] then false
    else if a[|a| - 1] == b[|b| - 1] then IsSubsequence(a[..|a| - 1], b[..|b| - 1])
    else IsSubsequence(a, b[..|b| - 1])
  }

  /** A filter keeps the relative order of what it keeps. */
  lemma {:induction false} FilterIsSubsequence<T(!new)>(s: seq<T>, p: T -> bool)
    ensures IsSubsequence(Filter(s, p), s)
  {
    if s != [] {
      FilterIsSubsequence(s[..|s| - 1], p);
      var f := Filter(s[..|s| - 1], p);
      if p(s[|s| - 1]) {
        assert (f + [s[|s| - 1]])[..|f|] == f;
      } else {
        SubsequenceExtend(f, s[..|s| - 1], s[|s| - 1]);
        assert s[..|s| - 1] + [s[|s| - 1]] == s;
      }
    }
  }

  lemma {:induction false} SubsequenceExtend<T>(a: seq<T>, b: seq<T>, x: T)
    requires IsSubsequence(a, b)
    ensures IsSubsequence(a, b + [x])
    decreases |b|, 1
  {
    if a != [] {
      assert (b + [x])[..|b|] == b;
      if a[|a| - 1] == x {
        SubsequenceDropLast(a, b);
      }
    }
  }

  lemma {:induction false} SubsequenceDropLast<T>(a: seq<T>, b: seq<T>)
    requires a != [] && IsSubsequence(a, b)
    ensures IsSubsequence(a[..|a| - 1], b)
    decreases |b|, 0
  {
    assert b[..|b| - 1] + [b[|b| - 1]] == b;
    if a[|a| - 1] == b[|b| - 1] {
      SubsequenceExtend(a[..|a| - 1], b[..|b| - 1], b[|b| - 1]);
    } else {
      SubsequenceDropLast(a, b[..|b| - 1]);
      SubsequenceExtend(a[..|a| - 1], b[..|b| - 1], b[|b| - 1]);
    }
  }

  /** The set of values in a list (`new Set(list)`). */
  function Distinct(ks: seq<string>): set<string> {
    set k | k in ks
  }

  /** `new Set(list).size` is at most the length of the list. */
  lemma {:induction false} DistinctBound(ks: seq<string>)
    ensures |Distinct(ks)| <= |ks|
  {
    if ks != [] {
      var p := ks[..|ks| - 1];
      DistinctBound(p);
      assert Distinct(ks) == Distinct(p) + {ks[|ks| - 1]} by {
        assert forall k :: k in ks <==> k in p || k == ks[|ks| - 1];
      }
    }
  }
}
