/** The blacklist store: category name to the list of lower-case malicious
    terms loaded for it, and the substring lookups over it. */
module Blacklist {
  import opened Wrappers
  import opened JavaText
  import opened Sequences

  /** One property of the blacklist resource: its key and its raw value. */
  type Entry = (string, string)

  /** Category name to the terms stored under it, in loading order. */
  type Store = map<string, seq<string>>

  // ---------------------------------------------------------------------------
  // Loading
  // ---------------------------------------------------------------------------

  /** The category a property key files its value under: the first piece of
      key.split("\\.") when that gives exactly two pieces; otherwise the key is
      malformed and its property is skipped. */
  function Category(key: string): (r: Option<string>)
    ensures r.Some? ==> '.' !in r.value && |r.value| < |key| &&
                        key[..|r.value|] == r.value && key[|r.value|] == '.'
  {
    SplitDotsFirst(key);
    var parts := JavaSplit(key);
    if |parts| == 2 then Some(parts[0]) else None
  }

  /** A key is accepted exactly when, cut at every '.', it has a first piece (the
      category), a non-empty second piece, and nothing but empty pieces after
      that. */
  lemma CategoryIffShape(key: string)
    ensures Category(key).Some? <==>
            var pieces := SplitDots(key);
            |pieces| >= 2 && pieces[1] != [] &&
            forall i :: 2 <= i < |pieces| ==> pieces[i] == []
    ensures Category(key).Some? ==> Category(key).value == SplitDots(key)[0]
  {
    var pieces := SplitDots(key);
    SplitDotsJoin(key);
    if '.' in key {
      var r := DropTrailingEmpty(pieces);
      if |pieces| >= 2 && pieces[1] != [] && forall i :: 2 <= i < |pieces| ==> pieces[i] == [] {
        assert |r| >= 2;
      }
    }
  }

  /** k dots. */
  function Dots(k: nat): string
  {
    seq(k, _ => '.')
  }

  lemma {:induction false} SplitDotsAfter(c: string, t: string)
    requires '.' !in c
    ensures SplitDots(c + ['.'] + t) == [c] + SplitDots(t)
    decreases |c|
  {
    var s := c + ['.'] + t;
    if c != [] {
      assert s[1..] == c[1..] + ['.'] + t;
      SplitDotsAfter(c[1..], t);
      assert [c[0]] + c[1..] == c;
    } else {
      assert s[1..] == t;
    }
  }

  lemma {:induction false} SplitDotsTrailing(d: string, k: nat)
    requires '.' !in d
    ensures SplitDots(d + Dots(k)) == [d] + seq(k, _ => [])
    decreases k
  {
    if k == 0 {
      assert d + Dots(0) == d;
      SplitDotsOne(d);
    } else {
      SplitDotsTrailing(d, k - 1);
      assert d + Dots(k) == d + ['.'] + Dots(k - 1);
      SplitDotsAfter(d, Dots(k - 1));
      SplitDotsTrailing([], k - 1);
      assert [] + Dots(k - 1) == Dots(k - 1);
    }
  }

  /** Every key of the shape category '.' discriminator, followed by any number of
      dots, is accepted and filed under its category, when neither the category
      nor the non-empty discriminator holds a dot. So "sql.1" and "a.b." are filed
      under "sql" and "a", and ".x" under the empty category. */
  lemma AcceptedKeyShape(c: string, d: string, k: nat)
    requires '.' !in c && '.' !in d && d != []
    ensures Category(c + ['.'] + d + Dots(k)) == Some(c)
  {
    var key := c + ['.'] + d + Dots(k);
    assert key == c + ['.'] + (d + Dots(k));
    SplitDotsAfter(c, d + Dots(k));
    SplitDotsTrailing(d, k);
    CategoryIffShape(key);
  }

  /** A key without a dot is skipped ("sql"). */
  lemma NoDotRejected(key: string)
    requires '.' !in key
    ensures Category(key) == None
  {
  }

  /** A key whose discriminator is empty is skipped ("sql." and "sql..x"). */
  lemma EmptyDiscriminatorRejected(c: string, t: string)
    requires '.' !in c
    requires t == [] || t[0] == '.'
    ensures Category(c + ['.'] + t) == None
  {
    var key := c + ['.'] + t;
    SplitDotsAfter(c, t);
    CategoryIffShape(key);
    if t != [] {
      assert SplitDots(t) == [[]] + SplitDots(t[1..]);
    }
  }

  /** A key with a third non-empty piece is skipped ("a.b.c"). */
  lemma ThirdPieceRejected(c: string, d: string, e: string)
    requires '.' !in c && '.' !in d && '.' !in e && e != []
    ensures Category(c + ['.'] + d + ['.'] + e) == None
  {
    var key := c + ['.'] + d + ['.'] + e;
    assert key == c + ['.'] + (d + ['.'] + e);
    SplitDotsAfter(c, d + ['.'] + e);
    SplitDotsAfter(d, e);
    SplitDotsOne(e);
    CategoryIffShape(key);
  }

  /** The stored form of a property value: trimmed, then lower-cased. */
  function Normalize(value: string): (r: string)
    ensures IsNormalized(r) && |r| <= |value|
  {
    ToLower(Trim(value))
  }

  /** No upper-case letter, and no character up to U+0020 at either end. */
  predicate IsNormalized(term: string)
  {
    HasNoUpper(term) && (term == [] || (!IsTrimmable(term[0]) && !IsTrimmable(term[|term| - 1])))
  }

  /** Every stored term is normalized, and normalizing it again changes nothing. */
  lemma NormalizeSpec(value: string)
    ensures IsNormalized(Normalize(value))
    ensures Normalize(Normalize(value)) == Normalize(value)
  {
    var n := Normalize(value);
    ToLowerFolds(Trim(value));
    TrimUntrimmed(n);
  }

  lemma TrimUntrimmed(s: string)
    requires s == [] || (!IsTrimmable(s[0]) && !IsTrimmable(s[|s| - 1]))
    ensures Trim(s) == s
  {
    if s != [] {
      assert LeadingTrimmable(s) == 0;
      assert TrailingTrimmable(s) == 0;
    }
  }

  /** One iteration of the loading loop: a property with an accepted key appends
      its normalized value to its category's list, creating the list when the
      category is new; a property with a malformed key changes nothing. */
  function AddEntry(store: Store, entry: Entry): (r: Store)
    ensures Category(entry.0).None? ==> r == store
    ensures Category(entry.0).Some? ==>
            var c := Category(entry.0).value;
            r.Keys == store.Keys + {c} &&
            r[c] == (if c in store then store[c] else []) + [Normalize(entry.1)] &&
            forall k :: k in store && k != c ==> r[k] == store[k]
  {
    match Category(entry.0)
    case None => store
    case Some(c) => store[c := (if c in store then store[c] else []) + [Normalize(entry.1)]]
  }

  /** The store after loading entries in order, starting from an empty store. */
  function Group(entries: seq<Entry>): (r: Store)
    ensures forall c :: c in r ==> r[c] != []
    decreases |entries|
  {
    if entries == [] then map[]
    else AddEntry(Group(entries[..|entries| - 1]), entries[|entries| - 1])
  }

  /** Loading one more entry is one more step of the loop. */
  lemma GroupPrefix(entries: seq<Entry>, i: nat)
    requires i < |entries|
    ensures Group(entries[..i + 1]) == AddEntry(Group(entries[..i]), entries[i])
  {
    assert entries[..i + 1][..i] == entries[..i];
  }

  /** The entries of the resource; a missing resource has none. */
  function Entries(source: Option<seq<Entry>>): seq<Entry>
  {
    source.GetOr([])
  }

  /** The store loaded from source; a missing resource gives an empty store. */
  function Load(source: Option<seq<Entry>>): (r: Store)
    ensures source.None? ==> r == map[]
    ensures forall c :: c in r <==> TermsFiledUnder(Entries(source), c) != []
  {
    GroupByCategory(Entries(source));
    Group(Entries(source))
  }

  /** Reference definition: the normalized values of the entries whose key files
      them under category c, in the entries' order, duplicates included. */
  function TermsFiledUnder(entries: seq<Entry>, c: string): seq<string>
    decreases |entries|
  {
    if entries == [] then []
    else
      (if Category(entries[0].0) == Some(c) then [Normalize(entries[0].1)] else []) +
      TermsFiledUnder(entries[1..], c)
  }

  lemma {:induction false} TermsFiledUnderAppend(entries: seq<Entry>, e: Entry, c: string)
    ensures TermsFiledUnder(entries + [e], c) ==
            TermsFiledUnder(entries, c) + (if Category(e.0) == Some(c) then [Normalize(e.1)] else [])
    decreases |entries|
  {
    var all := entries + [e];
    var last := if Category(e.0) == Some(c) then [Normalize(e.1)] else [];
    if entries == [] {
      assert all == [e] && all[1..] == [];
      assert TermsFiledUnder(all, c) == last + TermsFiledUnder([], c);
    } else {
      var first := if Category(entries[0].0) == Some(c) then [Normalize(entries[0].1)] else [];
      assert all[0] == entries[0] && all[1..] == entries[1..] + [e];
      assert TermsFiledUnder(all, c) == first + TermsFiledUnder(entries[1..] + [e], c);
      TermsFiledUnderAppend(entries[1..], e, c);
      assert TermsFiledUnder(entries, c) == first + TermsFiledUnder(entries[1..], c);
    }
  }

  /** The loaded store files every accepted value under its category, in order
      and with duplicates kept: a category is present exactly when some entry was
      filed under it, and its list is the sequence of those entries' values. */
  lemma {:induction false} GroupByCategory(entries: seq<Entry>)
    ensures forall c :: c in Group(entries) <==> TermsFiledUnder(entries, c) != []
    ensures forall c :: c in Group(entries) ==> Group(entries)[c] == TermsFiledUnder(entries, c)
    decreases |entries|
  {
    if entries != [] {
      var init, e := entries[..|entries| - 1], entries[|entries| - 1];
      assert entries == init + [e];
      GroupByCategory(init);
      forall c
        ensures TermsFiledUnder(entries, c) ==
                TermsFiledUnder(init, c) + (if Category(e.0) == Some(c) then [Normalize(e.1)] else [])
      {
        TermsFiledUnderAppend(init, e, c);
      }
    }
  }

  /** Every list in a loaded store is non-empty and holds only normalized terms. */
  lemma {:induction false} GroupNormalized(entries: seq<Entry>)
    ensures forall c :: c in Group(entries) ==> Group(entries)[c] != []
    ensures forall c, i :: c in Group(entries) && 0 <= i < |Group(entries)[c]| ==>
                           IsNormalized(Group(entries)[c][i])
    decreases |entries|
  {
    if entries != [] {
      var init, e := entries[..|entries| - 1], entries[|entries| - 1];
      GroupNormalized(init);
      NormalizeSpec(e.1);
    }
  }

  // ---------------------------------------------------------------------------
  // Counting stored terms
  // ---------------------------------------------------------------------------

  /** The positions of entries whose key is accepted. */
  function AcceptedPositions(entries: seq<Entry>): set<nat>
  {
    set i: nat | i < |entries| && Category(entries[i].0).Some?
  }

  /** The summed lengths of the lists of the given categories. */
  ghost function SumLengths(store: Store, keys: set<string>): nat
    requires keys <= store.Keys
    decreases keys
  {
    if keys == {} then 0
    else
      var k :| k in keys;
      |store[k]| + SumLengths(store, keys - {k})
  }

  /** The number of terms in the store, over all categories. */
  ghost function TotalTerms(store: Store): nat
  {
    SumLengths(store, store.Keys)
  }

  lemma {:induction false} SumLengthsRemove(store: Store, keys: set<string>, x: string)
    requires keys <= store.Keys && x in keys
    ensures SumLengths(store, keys) == |store[x]| + SumLengths(store, keys - {x})
    decreases keys
  {
    var k :| k in keys && SumLengths(store, keys) == |store[k]| + SumLengths(store, keys - {k});
    if k != x {
      SumLengthsRemove(store, keys - {k}, x);
      SumLengthsRemove(store, keys - {x}, k);
      assert keys - {k} - {x} == keys - {x} - {k};
    }
  }

  lemma {:induction false} SumLengthsAgree(s1: Store, s2: Store, keys: set<string>)
    requires keys <= s1.Keys && keys <= s2.Keys
    requires forall k :: k in keys ==> |s1[k]| == |s2[k]|
    ensures SumLengths(s1, keys) == SumLengths(s2, keys)
    decreases keys
  {
    if keys != {} {
      var k :| k in keys;
      SumLengthsRemove(s1, keys, k);
      SumLengthsRemove(s2, keys, k);
      SumLengthsAgree(s1, s2, keys - {k});
    }
  }

  /** Each accepted entry adds exactly one term to the store. */
  lemma AddEntryTotal(store: Store, e: Entry)
    ensures TotalTerms(AddEntry(store, e)) == TotalTerms(store) + (if Category(e.0).Some? then 1 else 0)
  {
    if Category(e.0).Some? {
      var c := Category(e.0).value;
      var after := AddEntry(store, e);
      var rest := store.Keys - {c};
      assert after.Keys == store.Keys + {c};
      SumLengthsRemove(after, after.Keys, c);
      assert after.Keys - {c} == rest;
      SumLengthsAgree(after, store, rest);
      if c in store {
        SumLengthsRemove(store, store.Keys, c);
      } else {
        assert store.Keys == rest;
      }
    }
  }

  lemma AcceptedPositionsSnoc(init: seq<Entry>, e: Entry)
    ensures AcceptedPositions(init + [e]) ==
            AcceptedPositions(init) + (if Category(e.0).Some? then {|init|} else {})
  {
    var entries := init + [e];
    forall i: nat | i < |init|
      ensures entries[i] == init[i]
    {
    }
  }

  /** The store holds as many terms as there were accepted keys. */
  lemma {:induction false} GroupTotal(entries: seq<Entry>)
    ensures TotalTerms(Group(entries)) == |AcceptedPositions(entries)|
    decreases |entries|
  {
    if entries == [] {
      assert AcceptedPositions(entries) == {};
    } else {
      var n := |entries| - 1;
      var init, e := entries[..n], entries[n];
      assert entries == init + [e];
      GroupTotal(init);
      AddEntryTotal(Group(init), e);
      AcceptedPositionsSnoc(init, e);
    }
  }

  // ---------------------------------------------------------------------------
  // Lookups
  // ---------------------------------------------------------------------------

  /** The terms of `terms` that occur in `lowered`, in their stored order: every
      occurring term is kept as often as it is stored, and no other term. */
  function Found(terms: seq<string>, lowered: string): (r: seq<string>)
    ensures IsSubsequence(r, terms)
    ensures forall i :: 0 <= i < |r| ==> Contains(lowered, r[i])
    ensures r != [] <==> exists i :: 0 <= i < |terms| && Contains(lowered, terms[i])
    ensures forall t {:trigger multiset(r)[t]} :: multiset(r)[t] == if Contains(lowered, t) then multiset(terms)[t] else 0
  {
    FilterCounts(terms, t => Contains(lowered, t));
    FilterOrdered(terms, t => Contains(lowered, t));
    FilterKept(terms, t => Contains(lowered, t));
    FilterNonEmpty(terms, t => Contains(lowered, t));
    Filter(terms, t => Contains(lowered, t))
  }

  /** The matches of a store against lowered text: each category with at least one
      term occurring in the text, mapped to those terms. */
  function Matches(store: Store, lowered: string): (r: Store)
    ensures r.Keys <= store.Keys
    ensures forall c :: c in r ==> r[c] != [] && IsSubsequence(r[c], store[c]) &&
                                   forall i :: 0 <= i < |r[c]| ==> Contains(lowered, r[c][i])
  {
    map c | c in store && Found(store[c], lowered) != [] :: Found(store[c], lowered)
  }

  /** A category is matched exactly when one of its terms occurs in the text, and
      it is then mapped to the terms that occur, in stored order. */
  lemma MatchesSpec(store: Store, lowered: string)
    ensures forall c :: c in Matches(store, lowered) <==>
                        c in store && exists i :: 0 <= i < |store[c]| && Contains(lowered, store[c][i])
    ensures forall c :: c in Matches(store, lowered) ==>
                        Matches(store, lowered)[c] == Found(store[c], lowered) &&
                        IsSubsequence(Matches(store, lowered)[c], store[c])
  {
    forall c | c in store
      ensures Found(store[c], lowered) != [] <==>
              exists i :: 0 <= i < |store[c]| && Contains(lowered, store[c][i])
      ensures IsSubsequence(Found(store[c], lowered), store[c])
    {
      FilterNonEmpty(store[c], t => Contains(lowered, t));
      FilterOrdered(store[c], t => Contains(lowered, t));
    }
  }

  /** The matches are empty exactly when no stored term occurs in the text. */
  lemma MatchesEmptyIff(store: Store, lowered: string)
    ensures Matches(store, lowered) != map[] <==>
            exists c, i :: c in store && 0 <= i < |store[c]| && Contains(lowered, store[c][i])
  {
    MatchesSpec(store, lowered);
    if exists c, i :: c in store && 0 <= i < |store[c]| && Contains(lowered, store[c][i]) {
      var c, i :| c in store && 0 <= i < |store[c]| && Contains(lowered, store[c][i]);
      assert c in Matches(store, lowered);
    }
    if Matches(store, lowered) != map[] {
      var c :| c in Matches(store, lowered);
    }
  }

  /** An empty stored term (a value that was all blanks) occurs in every text, so
      its category is matched by every input, including the empty one. */
  lemma EmptyTermMatchesEverything(store: Store, c: string, text: string)
    requires c in store && [] in store[c]
    ensures c in Matches(store, ToLower(text))
    ensures [] in Matches(store, ToLower(text))[c]
  {
    var i :| 0 <= i < |store[c]| && store[c][i] == [];
    ContainsEmpty(ToLower(text));
    MatchesSpec(store, ToLower(text));
    assert multiset(Found(store[c], ToLower(text)))[[]] == multiset(store[c])[[]] > 0;
  }

  /** Matching is case-insensitive: an input and its lower-cased form have the
      same matches. */
  lemma MatchesIgnoreCase(store: Store, text: string)
    ensures Matches(store, ToLower(ToLower(text))) == Matches(store, ToLower(text))
  {
    ToLowerFolds(text);
  }

  // ---------------------------------------------------------------------------
  // The loader object
  // ---------------------------------------------------------------------------

  /** The blacklist store. It is filled once, when constructed, from the entries
      of the configuration resource, and only read afterwards within the program's
      own code. */
  class BlacklistLoader {
    var blacklist: Store
    /** The configuration the store was loaded from; None when it was missing. */
    ghost var Source: Option<seq<Entry>>

    ghost predicate Valid()
      reads this
    {
      blacklist == Load(Source)
    }

    constructor (source: Option<seq<Entry>>)
      ensures Valid() && Source == source
      ensures source.None? ==> blacklist == map[]
    {
      blacklist := map[];
      Source := source;
      new;
      LoadBlacklist(source);
    }

    /** The loading loop: every property with an accepted key appends its trimmed,
        lower-cased value to its category's list; others are skipped. A missing
        resource leaves the store empty. */
    method LoadBlacklist(source: Option<seq<Entry>>)
      requires blacklist == map[]
      modifies this`blacklist
      ensures blacklist == Load(source)
    {
      if source.None? {
        return;
      }
      var entries := source.value;
      for i := 0 to |entries|
        invariant blacklist == Group(entries[..i])
      {
        GroupPrefix(entries, i);
        var (key, raw) := entries[i];
        var parts := JavaSplit(key);
        if |parts| != 2 {
          continue;
        }
        var category := parts[0];
        var value := ToLower(Trim(raw));
        var list := if category in blacklist then blacklist[category] else [];
        blacklist := blacklist[category := list + [value]];
      }
      assert entries[..|entries|] == entries;
    }

    /** The whole store, one non-empty list of normalized terms per category,
        each list being the values filed under that category in loading order. */
    function GetBlacklist(): (r: Store)
      reads this
      requires Valid()
      ensures r == blacklist
      ensures forall c :: c in r <==> TermsFiledUnder(Entries(Source), c) != []
      ensures forall c :: c in r ==> r[c] == TermsFiledUnder(Entries(Source), c)
      ensures forall c, i :: c in r && 0 <= i < |r[c]| ==> IsNormalized(r[c][i])
    {
      GroupByCategory(Entries(Source));
      GroupNormalized(Entries(Source));
      blacklist
    }

    /** The list of a known category; the empty list for any other name. */
    function GetByCategory(category: string): (r: seq<string>)
      reads this
      requires Valid()
      ensures category in blacklist ==> r == blacklist[category]
      ensures category !in blacklist ==> r == []
      ensures r == TermsFiledUnder(Entries(Source), category)
    {
      GroupByCategory(Entries(Source));
      if category in blacklist then blacklist[category] else []
    }

    /** Whether any stored term, of any category, occurs in the lower-cased input:
        exactly when FindMatches would report a match. */
    function ContainsAny(input: string): (r: bool)
      reads this
      ensures r <==> Matches(blacklist, ToLower(input)) != map[]
    {
      var lowered := ToLower(input);
      MatchesEmptyIff(blacklist, lowered);
      exists c, i :: c in blacklist && 0 <= i < |blacklist[c]| && Contains(lowered, blacklist[c][i])
    }

    /** For each category, the terms occurring in the lower-cased input, in stored
        order; categories with no such term are left out. */
    method FindMatches(input: string) returns (matches: Store)
      ensures matches == Matches(blacklist, ToLower(input))
    {
      var lowered := ToLower(input);
      matches := map[];
      var remaining := blacklist.Keys;
      while remaining != {}
        invariant remaining <= blacklist.Keys
        invariant matches == map c | c in blacklist.Keys - remaining && Found(blacklist[c], lowered) != [] ::
                               Found(blacklist[c], lowered)
        decreases remaining
      {
        var category :| category in remaining;
        var terms := blacklist[category];
        var found := [];
        for j := 0 to |terms|
          invariant found == Found(terms[..j], lowered)
        {
          assert terms[..j + 1][..j] == terms[..j];
          if Contains(lowered, terms[j]) {
            found := found + [terms[j]];
          }
        }
        assert terms[..|terms|] == terms;
        if found != [] {
          matches := matches[category := found];
        }
        remaining := remaining - {category};
      }
    }
  }
}
