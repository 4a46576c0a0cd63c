/** The pure helpers of the integration tests' `TestUtil`: numeric parsing
    with a fallback, quoting, and a stable sort of map entries by value. */
module TestUtil {
  import opened Wrappers
  import JavaNumbers
  import Paths

  /** `parseStringToLong(s, defval)`: the parsed value, or `defval` (which may
      be null) when `Long.parseLong` throws. */
  function ParseStringToLong(s: Option<string>, defval: Option<int>): (r: Option<int>)
    ensures JavaNumbers.ParseLong(s).Some? ==> r == JavaNumbers.ParseLong(s)
    ensures JavaNumbers.ParseLong(s).None? ==> r == defval
    ensures r.Some? && r != defval ==>
      s.Some? && JavaNumbers.WellFormed(s.value) && JavaNumbers.Int64Min <= r.value <= JavaNumbers.Int64Max
  {
    match JavaNumbers.ParseLong(s)
    case Some(v) => Some(v)
    case None => defval
  }

  /** `parseStringToInteger(s, defval)`: the same with `Integer.parseInt`. */
  function ParseStringToInteger(s: Option<string>, defval: Option<int>): (r: Option<int>)
    ensures JavaNumbers.ParseInt(s).Some? ==> r == JavaNumbers.ParseInt(s)
    ensures JavaNumbers.ParseInt(s).None? ==> r == defval
    ensures r.Some? && r != defval ==>
      s.Some? && JavaNumbers.WellFormed(s.value) && JavaNumbers.Int32Min <= r.value <= JavaNumbers.Int32Max
  {
    match JavaNumbers.ParseInt(s)
    case Some(v) => Some(v)
    case None => defval
  }

  /** Every value in range is read back from its decimal form; a value just
      outside the range falls back to the default. */
  lemma ParseStringRoundTrips(n: int, defval: Option<int>)
    ensures JavaNumbers.Int64Min <= n <= JavaNumbers.Int64Max ==>
      ParseStringToLong(Some(JavaNumbers.ToDecimal(n)), defval) == Some(n)
    ensures JavaNumbers.Int32Min <= n <= JavaNumbers.Int32Max ==>
      ParseStringToInteger(Some(JavaNumbers.ToDecimal(n)), defval) == Some(n)
    ensures n == JavaNumbers.Int32Max + 1 ==>
      ParseStringToInteger(Some(JavaNumbers.ToDecimal(n)), defval) == defval
  {
    if JavaNumbers.Int64Min <= n <= JavaNumbers.Int64Max {
      JavaNumbers.ParseToDecimal(n, JavaNumbers.Int64Min, JavaNumbers.Int64Max);
    }
    if JavaNumbers.Int32Min <= n <= JavaNumbers.Int32Max {
      JavaNumbers.ParseToDecimal(n, JavaNumbers.Int32Min, JavaNumbers.Int32Max);
    }
    if n == JavaNumbers.Int32Max + 1 {
      JavaNumbers.ParseToDecimal(n, JavaNumbers.Int64Min, JavaNumbers.Int64Max);
    }
  }

  /** `addQuoteToParamater(param)`: the text between single quotes; a null
      parameter is appended as "null". */
  function AddQuoteToParameter(param: Option<string>): (r: string)
    ensures |r| == |Paths.AppendText(param)| + 2
    ensures r[0] == '\'' && r[|r| - 1] == '\''
    ensures r[1..|r| - 1] == Paths.AppendText(param)
  {
    "'" + Paths.AppendText(param) + "'"
  }

  /** The inverse: the text between a leading and a trailing quote. */
  function Unquote(s: string): (r: Option<string>)
    ensures r.Some? <==> |s| >= 2 && s[0] == '\'' && s[|s| - 1] == '\''
    ensures r.Some? ==> |r.value| == |s| - 2
  {
    if |s| >= 2 && s[0] == '\'' && s[|s| - 1] == '\'' then Some(s[1..|s| - 1]) else None
  }

  /** Unquoting a quoted parameter gives back its text. */
  lemma UnquoteAddQuote(param: Option<string>)
    ensures Unquote(AddQuoteToParameter(param)) == Some(Paths.AppendText(param))
  {
  }

  /** A map entry: a key and its value (a `Comparable` value, here an integer). */
  type Entry<K> = (K, int)

  /** Values never decrease along the sequence. */
  ghost predicate SortedByValue<K>(s: seq<Entry<K>>) {
    forall i, j :: 0 <= i < j < |s| ==> s[i].1 <= s[j].1
  }

  /** The entries with value `v`, in sequence order. */
  function WithValue<K>(s: seq<Entry<K>>, v: int): (r: seq<Entry<K>>)
    ensures forall e :: e in r ==> e in s && e.1 == v
  {
    if |s| == 0 then [] else (if s[0].1 == v then [s[0]] else []) + WithValue(s[1..], v)
  }

  /** Insert `e` into a sorted sequence before every entry of value `e.1` or
      more. */
  function Insert<K>(e: Entry<K>, t: seq<Entry<K>>): (r: seq<Entry<K>>)
    requires SortedByValue(t)
    ensures SortedByValue(r)
    ensures multiset(r) == multiset(t) + multiset{e}
    decreases |t|
  {
    if |t| == 0 then [e]
    else if e.1 <= t[0].1 then [e] + t
    else
      var rest := Insert(e, t[1..]);
      assert t == [t[0]] + t[1..];
      forall j | 0 <= j < |rest|
        ensures t[0].1 <= rest[j].1
      {
        assert rest[j] in multiset(rest);
        if rest[j] != e {
          assert rest[j] in t[1..];
        }
      }
      SortedCons(t[0], rest);
      [t[0]] + rest
  }

  /** An entry no greater than every entry of a sorted sequence can go in front. */
  lemma SortedCons<K>(x: Entry<K>, s: seq<Entry<K>>)
    requires SortedByValue(s)
    requires forall j :: 0 <= j < |s| ==> x.1 <= s[j].1
    ensures SortedByValue([x] + s)
  {
    var r := [x] + s;
    assert forall i :: 1 <= i < |r| ==> r[i] == s[i - 1];
  }

  /** `WithValue` of a sequence with a known first entry. */
  lemma WithValueCons<K>(x: Entry<K>, s: seq<Entry<K>>, v: int)
    ensures WithValue([x] + s, v) == (if x.1 == v then [x] else []) + WithValue(s, v)
  {
    assert ([x] + s)[1..] == s;
  }

  /** Insertion keeps equal values in order: `e` lands in front of the entries
      of its own value, and other values are untouched. */
  lemma {:induction false} InsertWithValue<K>(e: Entry<K>, t: seq<Entry<K>>, v: int)
    requires SortedByValue(t)
    ensures WithValue(Insert(e, t), v) == if e.1 == v then [e] + WithValue(t, v) else WithValue(t, v)
    decreases |t|
  {
    if |t| == 0 {
      WithValueCons(e, [], v);
    } else if e.1 <= t[0].1 {
      WithValueCons(e, t, v);
    } else {
      InsertWithValue(e, t[1..], v);
      WithValueCons(t[0], Insert(e, t[1..]), v);
      WithValueCons(t[0], t[1..], v);
      assert t == [t[0]] + t[1..];
    }
  }

  /** `sortByValue`: the entries of the map in ascending value order. The
      sort of `List.sort` is stable, so entries with equal values keep the
      map's iteration order; the `LinkedHashMap` built from the sorted list
      iterates in that order. */
  function SortByValue<K>(entries: seq<Entry<K>>): (r: seq<Entry<K>>)
    ensures SortedByValue(r)
    ensures multiset(r) == multiset(entries)
    ensures forall v :: WithValue(r, v) == WithValue(entries, v)
  {
    if |entries| == 0 then []
    else
      var rest := SortByValue(entries[1..]);
      assert entries == [entries[0]] + entries[1..];
      assert forall v :: WithValue(Insert(entries[0], rest), v) == WithValue(entries, v) by {
        forall v
          ensures WithValue(Insert(entries[0], rest), v) == WithValue(entries, v)
        {
          InsertWithValue(entries[0], rest, v);
          WithValueCons(entries[0], entries[1..], v);
        }
      }
      Insert(entries[0], rest)
  }

  /** The sorted map holds exactly the input's key-value pairs. */
  lemma SortByValueKeepsEntries<K>(entries: seq<Entry<K>>)
    ensures forall e :: e in SortByValue(entries) <==> e in entries
  {
    var r := SortByValue(entries);
    assert forall e :: e in r <==> e in multiset(r);
  }
}
