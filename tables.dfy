/** Registry plumbing shared by the knowledge graph and the hierarchy: an
    optional value, a string-keyed table that remembers insertion order (a
    Python dict), order-preserving filtering, and the name search used by the
    queries. */
module Tables {

  datatype Option<+T> = None | Some(value: T)

  /** A dict keyed by strings: its entries, and its keys in insertion order. */
  datatype Table<T> = Table(items: map<string, T>, order: seq<string>) {

    /** Every key appears exactly once in `order`, and `order` holds only keys. */
    ghost predicate Wf() {
      && (forall i, j :: 0 <= i < j < |order| ==> order[i] != order[j])
      && (forall k :: k in items <==> k in order)
    }

    /** `dict.get(key)`. */
    function Get(key: string): (r: Option<T>)
      ensures r.Some? <==> key in items
      ensures r.Some? ==> r.value == items[key]
    {
      if key in items then Some(items[key]) else None
    }
  }

  function EmptyTable<T>(): (t: Table<T>)
    ensures t.Wf() && t.items == map[] && t.order == []
  {
    Table(map[], [])
  }

  /** `d[key] = value`: a new key goes to the end of the order, an existing key
      keeps its place and gets the new value. */
  function Put<T>(t: Table<T>, key: string, value: T): (r: Table<T>)
    requires t.Wf()
    ensures r.Wf()
    ensures r.items == t.items[key := value]
    ensures key in t.items ==> r.order == t.order
    ensures key !in t.items ==> r.order == t.order + [key]
  {
    if key in t.items then Table(t.items[key := value], t.order)
    else Table(t.items[key := value], t.order + [key])
  }

  /** `d.values()`, in insertion order (`ValuesListed` states what it holds). */
  function Values<T>(t: Table<T>): (vs: seq<T>)
    requires t.Wf()
  {
    seq(|t.order|, i requires 0 <= i < |t.order| => t.items[t.order[i]])
  }

  /** A well-formed table lists each of its keys once. */
  lemma KeysCounted<T>(t: Table<T>)
    requires t.Wf()
    ensures |t.order| == |t.items|
  {
    DistinctCard(t.order);
    assert (set k | k in t.order) == t.items.Keys;
  }

  /** `d.values()` holds one value per entry, and exactly the table's values. */
  lemma ValuesListed<T>(t: Table<T>)
    requires t.Wf()
    ensures |Values(t)| == |t.items|
    ensures forall v :: v in Values(t) <==> v in t.items.Values
  {
    KeysCounted(t);
    forall v | v in t.items.Values
      ensures v in Values(t)
    {
      var k :| k in t.items && t.items[k] == v;
      var i :| 0 <= i < |t.order| && t.order[i] == k;
      assert Values(t)[i] == v;
    }
  }

  lemma PutFreshValues<T>(t: Table<T>, key: string, value: T)
    requires t.Wf() && key !in t.items
    ensures Values(Put(t, key, value)) == Values(t) + [value]
  {
  }

  /** The elements of `s` that `keep` accepts, in their order in `s`: the shape
      of every "scan the registry and append the matches" loop. */
  function Filter<T>(s: seq<T>, keep: T -> bool): (r: seq<T>)
    ensures |r| <= |s|
  {
    if s == [] then [] else Filter(s[..|s| - 1], keep) + (if keep(s[|s| - 1]) then [s[|s| - 1]] else [])
  }

  /** A non-empty sequence is its front followed by its last element. */
  lemma SplitLast<T>(s: seq<T>)
    requires s != []
    ensures s == s[..|s| - 1] + [s[|s| - 1]]
  {
  }

  /** Filtering one more element of `s` appends it when it is accepted. */
  lemma FilterStep<T>(s: seq<T>, i: nat, keep: T -> bool)
    requires i < |s|
    ensures Filter(s[..i + 1], keep) == Filter(s[..i], keep) + (if keep(s[i]) then [s[i]] else [])
  {
    assert s[..i + 1][..i] == s[..i];
  }

  /** The filter keeps exactly the accepted elements. */
  lemma {:induction false} FilterMember<T>(s: seq<T>, keep: T -> bool, x: T)
    ensures x in Filter(s, keep) <==> x in s && keep(x)
  {
    if s != [] {
      FilterMember(s[..|s| - 1], keep, x);
      assert s == s[..|s| - 1] + [s[|s| - 1]];
    }
  }

  /** Every element of the filter is an accepted element of the input. */
  lemma {:induction false} FilterAccepted<T>(s: seq<T>, keep: T -> bool)
    ensures forall x :: x in Filter(s, keep) ==> x in s && keep(x)
    ensures |Filter(s, keep)| <= |s|
  {
    if s != [] {
      FilterAccepted(s[..|s| - 1], keep);
    }
  }

  /** A filter that accepts everything returns its whole input. */
  lemma {:induction false} FilterKeepsAll<T>(s: seq<T>, keep: T -> bool)
    requires forall x :: x in s ==> keep(x)
    ensures Filter(s, keep) == s
  {
    if s != [] {
      FilterKeepsAll(s[..|s| - 1], keep);
      assert s == s[..|s| - 1] + [s[|s| - 1]];
    }
  }

  /** The filter of a prefix is a prefix of the filter. */
  lemma {:induction false} FilterPrefix<T>(s: seq<T>, n: nat, keep: T -> bool)
    requires n <= |s|
    ensures Filter(s[..n], keep) <= Filter(s, keep)
    decreases |s|
  {
    if n == |s| {
      assert s[..n] == s;
    } else {
      var init := s[..|s| - 1];
      assert s[..n] == init[..n];
      FilterPrefix(init, n, keep);
      var last := if keep(s[|s| - 1]) then [s[|s| - 1]] else [];
      assert Filter(s, keep) == Filter(init, keep) + last;
      PrefixOfAppend(Filter(init, keep), last);
    }
  }

  lemma PrefixOfAppend<T>(a: seq<T>, b: seq<T>)
    ensures a <= a + b
  {
    assert (a + b)[..|a|] == a;
  }

  /** `re.search(pattern, text)` for a pattern without metacharacters: does
      `pattern` occur somewhere in `text`? */
  predicate Search(pattern: string, text: string): (found: bool)
    decreases |text|
  {
    if pattern <= text then true
    else if text == [] then false
    else Search(pattern, text[1..])
  }

  /** `pattern` occurs in `text` starting at position `i`. */
  ghost predicate OccursAt(pattern: string, text: string, i: int) {
    0 <= i <= |text| - |pattern| && text[i..i + |pattern|] == pattern
  }

  /** The search succeeds exactly when the pattern occurs at some position. */
  lemma {:induction false} SearchFindsOccurrence(pattern: string, text: string)
    ensures Search(pattern, text) <==> exists i :: OccursAt(pattern, text, i)
    decreases |text|
  {
    if pattern <= text {
      assert OccursAt(pattern, text, 0);
    } else if text == [] {
    } else {
      assert Search(pattern, text) == Search(pattern, text[1..]);
      SearchFindsOccurrence(pattern, text[1..]);
      if exists i :: OccursAt(pattern, text, i) {
        var i :| OccursAt(pattern, text, i);
        assert i != 0;
        assert OccursAt(pattern, text[1..], i - 1);
      }
      if Search(pattern, text[1..]) {
        var i :| OccursAt(pattern, text[1..], i);
        assert text[i + 1..i + 1 + |pattern|] == text[1..][i..i + |pattern|];
        assert OccursAt(pattern, text, i + 1);
      }
    }
  }

  /** No element occurs twice. */
  predicate Distinct<T(==)>(s: seq<T>) {
    forall i, j :: 0 <= i < j < |s| ==> s[i] != s[j]
  }

  /** A duplicate-free sequence has as many elements as its set. */
  lemma {:induction false} DistinctCard<T>(s: seq<T>)
    requires Distinct(s)
    ensures |set x | x in s| == |s|
  {
    if s != [] {
      var init := s[..|s| - 1];
      DistinctCard(init);
      assert (set x | x in s) == (set x | x in init) + {s[|s| - 1]};
      assert s[|s| - 1] !in init;
    }
  }
}
