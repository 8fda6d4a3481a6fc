/**
 * The system-name matcher behind the `/search` endpoint
 * (structs/autocomplete.go): an append-only list of name records and a
 * bounded, order-keeping, case-insensitive substring filter over it.
 */
module Autocomplete {

  /** A name record (`SystemRecord`). */
  datatype SystemRecord = SystemRecord(name: string, id: int)

  /** ASCII lower-casing of one character. */
  function LowerChar(c: char): (r: char)
    ensures 'A' <= c <= 'Z' ==> r as int == c as int + 32
    ensures !('A' <= c <= 'Z') ==> r == c
  {
    if 'A' <= c <= 'Z' then (c as int + 32) as char else c
  }

  /** `strings.ToLower`, on ASCII letters. */
  function ToLower(s: string): (r: string)
    ensures |r| == |s|
    ensures forall i | 0 <= i < |s| :: r[i] == LowerChar(s[i])
  {
    if s == [] then [] else [LowerChar(s[0])] + ToLower(s[1..])
  }

  /** Lower-casing twice is lower-casing once. */
  lemma ToLowerIdempotent(s: string)
    ensures ToLower(ToLower(s)) == ToLower(s)
  {
    var t := ToLower(s);
    assert forall i | 0 <= i < |t| :: ToLower(t)[i] == LowerChar(t[i]) == t[i];
  }

  /** `strings.Contains`: `sub` occurs in `s` at some offset. */
  function Contains(s: string, sub: string): bool
  {
    sub <= s || (s != [] && Contains(s[1..], sub))
  }

  /** `Contains` holds exactly when `sub` occurs at some offset of `s`. */
  lemma ContainsAt(s: string, sub: string)
    ensures Contains(s, sub) <==> exists i | 0 <= i <= |s| - |sub| :: sub <= s[i..]
  {
    if Contains(s, sub) {
      var i := ContainsOffset(s, sub);
    }
    if exists i | 0 <= i <= |s| - |sub| :: sub <= s[i..] {
      var i :| 0 <= i <= |s| - |sub| && sub <= s[i..];
      OffsetContains(s, sub, i);
    }
  }

  /** Where `Contains` holds, `sub` occurs at an offset. */
  lemma {:induction false} ContainsOffset(s: string, sub: string) returns (i: int)
    requires Contains(s, sub)
    ensures 0 <= i <= |s| - |sub| && sub <= s[i..]
    decreases |s|
  {
    if sub <= s {
      i := 0;
    } else {
      var j := ContainsOffset(s[1..], sub);
      assert s[1..][j..] == s[j + 1..];
      i := j + 1;
    }
  }

  /** An occurrence of `sub` at offset `i` makes `Contains` hold. */
  lemma {:induction false} OffsetContains(s: string, sub: string, i: int)
    requires 0 <= i <= |s| - |sub| && sub <= s[i..]
    ensures Contains(s, sub)
    decreases i
  {
    if i > 0 {
      assert s[1..][i - 1..] == s[i..];
      OffsetContains(s[1..], sub, i - 1);
    }
  }

  /** A record matches when its lower-cased name contains the lower-cased fragment. */
  predicate Matches(record: SystemRecord, fragment: string)
  {
    Contains(ToLower(record.name), ToLower(fragment))
  }

  /** The matching records, in order. */
  function Matching(records: seq<SystemRecord>, fragment: string): seq<SystemRecord>
  {
    if records == [] then []
    else
      var last := records[|records| - 1];
      Matching(records[..|records| - 1], fragment) + (if Matches(last, fragment) then [last] else [])
  }

  /** The matching records are exactly the records that match. */
  lemma {:induction false} MatchingMembers(records: seq<SystemRecord>, fragment: string, r: SystemRecord)
    ensures r in Matching(records, fragment) <==> r in records && Matches(r, fragment)
    decreases |records|
  {
    if records != [] {
      var init := records[..|records| - 1];
      MatchingMembers(init, fragment, r);
      assert records == init + [records[|records| - 1]];
    }
  }

  /** Matching keeps order: the matches of a concatenation are the matches of each part, in turn. */
  lemma {:induction false} MatchingAppend(a: seq<SystemRecord>, b: seq<SystemRecord>, fragment: string)
    ensures Matching(a + b, fragment) == Matching(a, fragment) + Matching(b, fragment)
    decreases |b|
  {
    if b == [] {
      assert a + b == a;
    } else {
      var init := b[..|b| - 1];
      assert (a + b)[..|a + b| - 1] == a + init;
      MatchingAppend(a, init, fragment);
    }
  }

  /** The matches of a prefix of the records are a prefix of their matches. */
  lemma MatchingPrefix(records: seq<SystemRecord>, n: int, fragment: string)
    requires 0 <= n <= |records|
    ensures Matching(records[..n], fragment) <= Matching(records, fragment)
  {
    MatchingAppend(records[..n], records[n..], fragment);
    assert records[..n] + records[n..] == records;
  }

  /** An empty fragment matches every record. */
  lemma {:induction false} MatchingEmptyFragment(records: seq<SystemRecord>)
    ensures Matching(records, "") == records
    decreases |records|
  {
    if records != [] {
      MatchingEmptyFragment(records[..|records| - 1]);
    }
  }

  function Min(a: int, b: int): int
  {
    if a < b then a else b
  }

  /** The records matcher (`Autocomplete`). */
  class Matcher {
    var records: seq<SystemRecord>

    constructor ()
      ensures records == []
    {
      records := [];
    }

    /** `Add`: the record goes at the end; the earlier ones stay. */
    method Add(record: SystemRecord)
      modifies this
      ensures records == old(records) + [record]
    {
      records := records + [record];
    }

    /**
     * `GetAll`: the matching records in order, stopping as soon as `limit`
     * are collected. The limit is compared after each record only, so with
     * a zero limit the scan stops at once when the first record does not
     * match and otherwise never stops early.
     */
    method GetAll(fragment: string, limit: int) returns (results: seq<SystemRecord>)
      requires 0 <= limit
      ensures 1 <= limit ==> results == Matching(records, fragment)[..Min(limit, |Matching(records, fragment)|)]
      ensures limit == 0 ==>
        results == if records != [] && Matches(records[0], fragment) then Matching(records, fragment) else []
    {
      results := [];
      for i := 0 to |records|
        invariant results == Matching(records[..i], fragment)
        invariant 1 <= limit ==> |results| < limit
        invariant limit == 0 && 0 < i ==> Matches(records[0], fragment) && results != []
      {
        var record := records[i];
        assert records[..i + 1][..i] == records[..i];
        if Contains(ToLower(record.name), ToLower(fragment)) {
          results := results + [record];
        }
        if |results| == limit {
          MatchingPrefix(records, i + 1, fragment);
          return;
        }
      }
      assert records[..|records|] == records;
      if limit == 0 && records != [] {
        assert Matches(records[0], fragment);
      }
    }
  }

  /** Every record `GetAll` returns matches the fragment, for any limit. */
  lemma ResultsMatch(records: seq<SystemRecord>, fragment: string, results: seq<SystemRecord>, n: int)
    requires 0 <= n <= |Matching(records, fragment)| && results == Matching(records, fragment)[..n]
    ensures forall r | r in results :: r in records && Matches(r, fragment)
  {
    forall r | r in results
      ensures r in records && Matches(r, fragment)
    {
      MatchingMembers(records, fragment, r);
    }
  }

  /** With an empty fragment and a positive limit, the first `limit` records come back. */
  lemma EmptyFragmentPrefix(records: seq<SystemRecord>, limit: int)
    requires 1 <= limit
    ensures Matching(records, "")[..Min(limit, |Matching(records, "")|)] == records[..Min(limit, |records|)]
  {
    MatchingEmptyFragment(records);
  }

  /** The `/search` endpoint: the first five matches for the query `q`. */
  method SearchNames(ac: Matcher, query: string) returns (results: seq<SystemRecord>)
    ensures results == Matching(ac.records, query)[..Min(5, |Matching(ac.records, query)|)]
  {
    results := ac.GetAll(query, 5);
  }
}
