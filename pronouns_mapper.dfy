/** Pronoun query to display tag (src/mappers/pronouns_mapper.rs). */
module PronounsMapping {
  import opened Wrappers

  const SUBJECTIVE: seq<string> := ["she", "he", "they", "it", "one", "ae", "ey", "fae", "xe", "ze"]
  const OBJECTIVE: seq<string> := ["her", "him", "them", "its", "one's", "aer", "em", "faer", "xem", "hir", "zir"]

  /** The query key of a pair: the two words joined with `-`. */
  function Key(s: string, o: string): string { s + "-" + o }

  /** The display tag of a pair: the two words joined with `/`. */
  function Tag(s: string, o: string): string { s + "/" + o }

  /**
   * The table after the inner loop has inserted, in order, the entries for
   * subjective word `s` and each objective word of `os` into `m`.
   */
  function InsertRow(m: map<string, string>, s: string, os: seq<string>): map<string, string>
  {
    if os == [] then m
    else
      var o := os[|os| - 1];
      InsertRow(m, s, os[..|os| - 1])[Key(s, o) := Tag(s, o)]
  }

  /** The table after the outer loop has run over every word of `ss`, starting from an empty map. */
  function InsertAll(ss: seq<string>, os: seq<string>): map<string, string>
  {
    if ss == [] then map[] else InsertRow(InsertAll(ss[..|ss| - 1], os), ss[|ss| - 1], os)
  }

  /** The table `PronounsMapper::new` builds. */
  function Table(): map<string, string>
  {
    InsertAll(SUBJECTIVE, OBJECTIVE)
  }

  predicate DashFree(w: string) { '-' !in w }

  predicate AllDashFree(ws: seq<string>) { forall i :: 0 <= i < |ws| ==> DashFree(ws[i]) }

  predicate Distinct(ws: seq<string>) { forall i, j :: 0 <= i < j < |ws| ==> ws[i] != ws[j] }

  /** `q` is the key of some pair drawn from `ss` and `os`. */
  predicate IsPairKey(q: string, ss: seq<string>, os: seq<string>)
  {
    exists i, j :: 0 <= i < |ss| && 0 <= j < |os| && q == Key(ss[i], os[j])
  }

  /** `q` is one of the 110 keys the mapper recognises. */
  predicate IsPronounsKey(q: string)
  {
    IsPairKey(q, SUBJECTIVE, OBJECTIVE)
  }

  /** `q` with every `-` turned into `/`. */
  function DashToSlash(q: string): (r: string)
    ensures |r| == |q|
  {
    seq(|q|, i requires 0 <= i < |q| => if q[i] == '-' then '/' else q[i])
  }

  /** How many times `-` occurs in `q`. */
  function DashCount(q: string): nat
  {
    if q == [] then 0 else (if q[0] == '-' then 1 else 0) + DashCount(q[1..])
  }

  lemma {:induction false} DashCountAppend(a: string, b: string)
    ensures DashCount(a + b) == DashCount(a) + DashCount(b)
  {
    if a == [] {
      assert a + b == b;
    } else {
      assert (a + b)[0] == a[0];
      assert (a + b)[1..] == a[1..] + b;
      DashCountAppend(a[1..], b);
    }
  }

  lemma {:induction false} DashCountOfDashFree(w: string)
    requires DashFree(w)
    ensures DashCount(w) == 0
  {
    if w != [] {
      DashCountOfDashFree(w[1..]);
    }
  }

  /** A key of dash-free words holds exactly one `-`, and turning it into `/` gives the tag. */
  lemma KeyShape(s: string, o: string)
    requires DashFree(s) && DashFree(o)
    ensures DashCount(Key(s, o)) == 1
    ensures DashToSlash(Key(s, o)) == Tag(s, o)
  {
    DashCountAppend(s + "-", o);
    DashCountAppend(s, "-");
    DashCountOfDashFree(s);
    DashCountOfDashFree(o);
    var k := Key(s, o);
    forall i | 0 <= i < |k|
      ensures DashToSlash(k)[i] == Tag(s, o)[i]
    {
      if i < |s| {
        assert k[i] == s[i];
      } else if i > |s| {
        assert k[i] == o[i - |s| - 1];
      }
    }
  }

  /** Keys of one subjective word determine the objective word. */
  lemma KeySuffix(s: string, o: string, o': string)
    requires Key(s, o) == Key(s, o')
    ensures o == o'
  {
    assert o == Key(s, o)[|s| + 1..];
    assert o' == Key(s, o')[|s| + 1..];
  }

  /** A key holds the subjective word, then `-`. */
  lemma KeyPrefix(s: string, o: string)
    ensures Key(s, o)[|s|] == '-'
    ensures forall n :: 0 <= n < |s| ==> Key(s, o)[n] == s[n]
  {
  }

  /** When no word contains `-`, different pairs have different keys. */
  lemma KeyInjective(s: string, o: string, s': string, o': string)
    requires DashFree(s) && DashFree(o) && DashFree(s') && DashFree(o')
    requires Key(s, o) == Key(s', o')
    ensures s == s' && o == o'
  {
    var k := Key(s, o);
    KeyPrefix(s, o);
    KeyPrefix(s', o');
    if |s| < |s'| {
      assert false;
    } else if |s'| < |s| {
      assert false;
    }
    assert s == k[..|s|] == s';
    KeySuffix(s, o, o');
  }

  /** Keys of a row: the old ones plus one per objective word. */
  lemma {:induction false} InsertRowKeys(m: map<string, string>, s: string, os: seq<string>, q: string)
    ensures q in InsertRow(m, s, os) <==> q in m || exists j :: 0 <= j < |os| && q == Key(s, os[j])
  {
    if os != [] {
      var init := os[..|os| - 1];
      InsertRowKeys(m, s, init, q);
      if exists j :: 0 <= j < |init| && q == Key(s, init[j]) {
        var j :| 0 <= j < |init| && q == Key(s, init[j]);
        assert os[j] == init[j];
      }
      if exists j :: 0 <= j < |os| && q == Key(s, os[j]) {
        var j :| 0 <= j < |os| && q == Key(s, os[j]);
        if j < |init| {
          assert init[j] == os[j];
        }
      }
    }
  }

  /** Each entry of a table built from dash-free words maps its key to the key with `/` for `-`. */
  predicate TagsMatchKeys(m: map<string, string>)
  {
    forall q :: q in m ==> m[q] == DashToSlash(q)
  }

  lemma {:induction false} InsertRowTags(m: map<string, string>, s: string, os: seq<string>)
    requires TagsMatchKeys(m)
    requires DashFree(s) && AllDashFree(os)
    ensures TagsMatchKeys(InsertRow(m, s, os))
  {
    if os != [] {
      var o := os[|os| - 1];
      InsertRowTags(m, s, os[..|os| - 1]);
      KeyShape(s, o);
    }
  }

  lemma {:induction false} InsertAllTags(ss: seq<string>, os: seq<string>)
    requires AllDashFree(ss) && AllDashFree(os)
    ensures TagsMatchKeys(InsertAll(ss, os))
  {
    if ss != [] {
      InsertAllTags(ss[..|ss| - 1], os);
      InsertRowTags(InsertAll(ss[..|ss| - 1], os), ss[|ss| - 1], os);
    }
  }

  /** The keys of the built table are exactly the pair keys. */
  lemma {:induction false} InsertAllKeys(ss: seq<string>, os: seq<string>, q: string)
    ensures q in InsertAll(ss, os) <==> IsPairKey(q, ss, os)
  {
    if ss != [] {
      var init, s := ss[..|ss| - 1], ss[|ss| - 1];
      InsertAllKeys(init, os, q);
      InsertRowKeys(InsertAll(init, os), s, os, q);
      if IsPairKey(q, init, os) {
        var i, j :| 0 <= i < |init| && 0 <= j < |os| && q == Key(init[i], os[j]);
        assert ss[i] == init[i];
      }
      if exists j :: 0 <= j < |os| && q == Key(s, os[j]) {
        var j :| 0 <= j < |os| && q == Key(s, os[j]);
        assert ss[|ss| - 1] == s;
      }
      if IsPairKey(q, ss, os) {
        var i, j :| 0 <= i < |ss| && 0 <= j < |os| && q == Key(ss[i], os[j]);
        if i < |init| {
          assert init[i] == ss[i];
        }
      }
    }
  }

  /** A row of distinct objective words, none of whose keys is present yet, adds one entry per word. */
  lemma {:induction false} InsertRowSize(m: map<string, string>, s: string, os: seq<string>)
    requires Distinct(os)
    requires forall j :: 0 <= j < |os| ==> Key(s, os[j]) !in m
    ensures |InsertRow(m, s, os)| == |m| + |os|
  {
    if os != [] {
      var init, o := os[..|os| - 1], os[|os| - 1];
      InsertRowSize(m, s, init);
      InsertRowKeys(m, s, init, Key(s, o));
      if Key(s, o) in InsertRow(m, s, init) {
        var j :| 0 <= j < |init| && Key(s, o) == Key(s, init[j]);
        KeySuffix(s, o, init[j]);
        assert false;
      }
    }
  }

  /** Distinct dash-free words give a table of |ss| * |os| entries. */
  lemma {:induction false} InsertAllSize(ss: seq<string>, os: seq<string>)
    requires Distinct(ss) && Distinct(os) && AllDashFree(ss) && AllDashFree(os)
    ensures |InsertAll(ss, os)| == |ss| * |os|
  {
    if ss != [] {
      var init, s := ss[..|ss| - 1], ss[|ss| - 1];
      InsertAllSize(init, os);
      forall j | 0 <= j < |os|
        ensures Key(s, os[j]) !in InsertAll(init, os)
      {
        InsertAllKeys(init, os, Key(s, os[j]));
        if IsPairKey(Key(s, os[j]), init, os) {
          var i, j' :| 0 <= i < |init| && 0 <= j' < |os| && Key(s, os[j]) == Key(init[i], os[j']);
          KeyInjective(s, os[j], init[i], os[j']);
          assert false;
        }
      }
      InsertRowSize(InsertAll(init, os), s, os);
      assert |ss| * |os| == |init| * |os| + |os|;
    }
  }

  /** The word lists hold no `-` and no repeated word. */
  lemma WordLists()
    ensures AllDashFree(SUBJECTIVE) && AllDashFree(OBJECTIVE)
    ensures Distinct(SUBJECTIVE) && Distinct(OBJECTIVE)
  {
  }

  /** The lookup table of `PronounsMapper`, built once and only read afterwards. */
  class PronounsMapper {
    const hashMap: map<string, string>

    ghost predicate Valid()
    {
      hashMap == Table()
    }

    /** `new`: nested loops insert `s-o` => `s/o` for every subjective `s` and objective `o`. */
    constructor ()
      ensures Valid()
    {
      var m: map<string, string> := map[];
      var i := 0;
      while i < |SUBJECTIVE|
        invariant 0 <= i <= |SUBJECTIVE|
        invariant m == InsertAll(SUBJECTIVE[..i], OBJECTIVE)
      {
        var subjective := SUBJECTIVE[i];
        var j := 0;
        while j < |OBJECTIVE|
          invariant 0 <= j <= |OBJECTIVE|
          invariant m == InsertRow(InsertAll(SUBJECTIVE[..i], OBJECTIVE), subjective, OBJECTIVE[..j])
        {
          var objective := OBJECTIVE[j];
          m := m[Key(subjective, objective) := Tag(subjective, objective)];
          assert OBJECTIVE[..j + 1][..j] == OBJECTIVE[..j];
          j := j + 1;
        }
        assert OBJECTIVE[..j] == OBJECTIVE;
        assert SUBJECTIVE[..i + 1][..i] == SUBJECTIVE[..i];
        i := i + 1;
      }
      assert SUBJECTIVE[..i] == SUBJECTIVE;
      hashMap := m;
    }

    /** `to_pronouns_tag`: the tag stored for the query, if any. */
    function ToPronounsTag(query: string): (r: Option<string>)
      requires Valid()
      ensures r.Some? <==> IsPronounsKey(query)
      ensures r.Some? ==> r.value == DashToSlash(query) && DashCount(query) == 1
    {
      InsertAllKeys(SUBJECTIVE, OBJECTIVE, query);
      WordLists();
      InsertAllTags(SUBJECTIVE, OBJECTIVE);
      if query in hashMap then
        ghost var i, j :| 0 <= i < |SUBJECTIVE| && 0 <= j < |OBJECTIVE| && query == Key(SUBJECTIVE[i], OBJECTIVE[j]);
        KeyShape(SUBJECTIVE[i], OBJECTIVE[j]);
        Some(hashMap[query])
      else
        None
    }
  }

  /** Every subjective/objective pair is recognised and yields `s/o`. */
  lemma TagOfEveryPair(mapper: PronounsMapper, i: nat, j: nat)
    requires mapper.Valid()
    requires i < |SUBJECTIVE| && j < |OBJECTIVE|
    ensures mapper.ToPronounsTag(Key(SUBJECTIVE[i], OBJECTIVE[j])) == Some(Tag(SUBJECTIVE[i], OBJECTIVE[j]))
  {
    WordLists();
    KeyShape(SUBJECTIVE[i], OBJECTIVE[j]);
  }

  /** Any other query yields nothing. */
  lemma NoTagForOtherQueries(mapper: PronounsMapper, query: string)
    requires mapper.Valid()
    requires !IsPronounsKey(query)
    ensures mapper.ToPronounsTag(query) == None
  {
  }

  /** The table holds 10 x 11 = 110 entries. */
  lemma TableHas110Entries()
    ensures |Table()| == 110
  {
    WordLists();
    InsertAllSize(SUBJECTIVE, OBJECTIVE);
  }
}
