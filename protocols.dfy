/**
 * Protocol-name bookkeeping of the resolver (src/resolver.js): the list of
 * supported names is built with lodash's `uniq` (first occurrence kept) and a
 * value is matched with lodash's `find` over that list, testing
 * `startsWith(name + ":")`.
 */
module Protocols {
  import opened Basics

  /** `value` carries the tag of protocol `name`: it starts with `name + ":"`. */
  predicate Tagged(value: string, name: string) {
    StartsWith(value, name + ":")
  }

  /** The first occurrence of every element of `s`, in order of first occurrence. */
  function Dedup(s: seq<string>): (r: seq<string>)
    ensures NoDup(r)
    ensures forall x :: x in r <==> x in s
    decreases |s|
  {
    if s == [] then []
    else
      var init := Dedup(s[..|s| - 1]);
      var x := s[|s| - 1];
      assert s == s[..|s| - 1] + [x];
      if x in init then init else init + [x]
  }

  /** The elements of `s` that do not occur in `excluded`, in their order in `s`. */
  function Without(s: seq<string>, excluded: seq<string>): (r: seq<string>)
    ensures forall x :: x in r <==> x in s && x !in excluded
    decreases |s|
  {
    if s == [] then []
    else
      var init := Without(s[..|s| - 1], excluded);
      var x := s[|s| - 1];
      assert s == s[..|s| - 1] + [x];
      if x in excluded then init else init + [x]
  }

  /** Appending one name to a list appends it to the deduplication unless it was already there. */
  lemma DedupSnoc(s: seq<string>, x: string)
    ensures Dedup(s + [x]) == if x in s then Dedup(s) else Dedup(s) + [x]
  {
    assert (s + [x])[..|s + [x]| - 1] == s;
  }

  /** Appending one name to a list appends it to the filtered list unless it is excluded. */
  lemma WithoutSnoc(s: seq<string>, x: string, excluded: seq<string>)
    ensures Without(s + [x], excluded) == if x in excluded then Without(s, excluded) else Without(s, excluded) + [x]
  {
    assert (s + [x])[..|s + [x]| - 1] == s;
  }

  /** Deduplicating a concatenation keeps the first part's names first and
      drops from the second part every name the first part already has. */
  lemma {:induction false} DedupAppend(a: seq<string>, b: seq<string>)
    ensures Dedup(a + b) == Dedup(a) + Without(Dedup(b), a)
    decreases |b|
  {
    if b == [] {
      assert a + b == a;
    } else {
      var b', x := b[..|b| - 1], b[|b| - 1];
      assert b == b' + [x];
      DedupAppend(a, b');
      DedupAppendStep(a, b', x);
    }
  }

  /** The inductive step of DedupAppend: one more name at the end of the second part. */
  lemma DedupAppendStep(a: seq<string>, b: seq<string>, x: string)
    requires Dedup(a + b) == Dedup(a) + Without(Dedup(b), a)
    ensures Dedup(a + (b + [x])) == Dedup(a) + Without(Dedup(b + [x]), a)
  {
    assert a + (b + [x]) == (a + b) + [x];
    DedupSnoc(a + b, x);
    DedupSnoc(b, x);
    if x in b {
      assert x in a + b;
    } else if x in a {
      assert x in a + b;
      WithoutSnoc(Dedup(b), x, a);
    } else {
      DedupAppendNew(a, b, x);
    }
  }

  /** The step for a name that occurs in neither part: it lands at the very end. */
  lemma DedupAppendNew(a: seq<string>, b: seq<string>, x: string)
    requires Dedup(a + b) == Dedup(a) + Without(Dedup(b), a)
    requires x !in a && x !in b
    ensures Dedup((a + b) + [x]) == Dedup(a) + Without(Dedup(b + [x]), a)
  {
    var da, db, w := Dedup(a), Dedup(b), Without(Dedup(b), a);
    assert x !in a + b;
    DedupSnoc(a + b, x);
    assert Dedup((a + b) + [x]) == (da + w) + [x];
    DedupSnoc(b, x);
    assert Dedup(b + [x]) == db + [x];
    WithoutSnoc(db, x, a);
    assert Without(db + [x], a) == w + [x];
    SnocAssoc(da, w, x);
  }

  lemma SnocAssoc(p: seq<string>, q: seq<string>, y: string)
    ensures (p + q) + [y] == p + (q + [y])
  {
  }

  /** A sequence without duplicates is its own deduplication. */
  lemma {:induction false} DedupOfNoDup(s: seq<string>)
    requires NoDup(s)
    ensures Dedup(s) == s
    decreases |s|
  {
    if s != [] {
      var init := s[..|s| - 1];
      assert NoDup(init);
      DedupOfNoDup(init);
      assert s[|s| - 1] !in init;
      assert s == init + [s[|s| - 1]];
    }
  }

  /** Index of the first name in `names` that tags `value`, or `|names|` when none does. */
  function MatchIndex(names: seq<string>, value: string): (i: nat)
    ensures i <= |names|
    ensures forall j | 0 <= j < i :: !Tagged(value, names[j])
    ensures i < |names| ==> Tagged(value, names[i])
    decreases |names|
  {
    if names == [] then 0
    else if Tagged(value, names[0]) then 0
    else 1 + MatchIndex(names[1..], value)
  }

  /** The first name of `names` whose tag `value` carries (lodash's `find`). */
  function FirstMatch(names: seq<string>, value: string): (r: Option<string>)
    ensures r.Some? ==> r.value in names && Tagged(value, r.value)
    ensures r.None? <==> forall p | p in names :: !Tagged(value, p)
  {
    var i := MatchIndex(names, value);
    if i < |names| then Some(names[i]) else None
  }

  /** The contract of MatchIndex determines its result. */
  lemma MatchIndexIs(names: seq<string>, value: string, i: nat)
    requires i <= |names|
    requires forall j | 0 <= j < i :: !Tagged(value, names[j])
    requires i < |names| ==> Tagged(value, names[i])
    ensures MatchIndex(names, value) == i
  {
  }

  /** Searching a concatenation searches the first part, then the second. */
  lemma FirstMatchAppend(a: seq<string>, b: seq<string>, value: string)
    ensures FirstMatch(a + b, value)
         == if FirstMatch(a, value).Some? then FirstMatch(a, value) else FirstMatch(b, value)
  {
    var ia := MatchIndex(a, value);
    if ia < |a| {
      MatchIndexIs(a + b, value, ia);
    } else {
      var ib := MatchIndex(b, value);
      forall j | 0 <= j < |a| + ib ensures !Tagged(value, (a + b)[j]) {
        if j >= |a| {
          assert (a + b)[j] == b[j - |a|];
        }
      }
      if ib < |b| {
        assert (a + b)[|a| + ib] == b[ib];
      }
      MatchIndexIs(a + b, value, |a| + ib);
    }
  }

  /** Dropping later duplicates never changes which name matches first. */
  lemma {:induction false} FirstMatchDedup(s: seq<string>, value: string)
    ensures FirstMatch(Dedup(s), value) == FirstMatch(s, value)
    decreases |s|
  {
    if s != [] {
      var init, x := s[..|s| - 1], s[|s| - 1];
      assert s == init + [x];
      FirstMatchDedup(init, value);
      FirstMatchAppend(init, [x], value);
      if x !in Dedup(init) {
        FirstMatchAppend(Dedup(init), [x], value);
      }
    }
  }

  /** A tagged value spells out the name, then ':'. */
  lemma TagPositions(value: string, p: string)
    requires Tagged(value, p)
    ensures |p| < |value| && value[|p|] == ':'
    ensures forall i | 0 <= i < |p| :: value[i] == p[i]
  {
    assert value[..|p| + 1] == p + ":";
    assert value[|p|] == value[..|p| + 1][|p|];
  }

  /** Names without ':' tag disjoint sets of strings: a string carries at most one such tag. */
  lemma AtMostOneTag(value: string, p: string, q: string)
    requires ':' !in p && ':' !in q
    requires Tagged(value, p) && Tagged(value, q)
    ensures p == q
  {
    TagPositions(value, p);
    TagPositions(value, q);
  }

  /** When no name contains ':', the first match does not depend on the order of the names. */
  lemma MatchIsOrderIndependent(names: seq<string>, value: string, p: string)
    requires forall q | q in names :: ':' !in q
    requires p in names && Tagged(value, p)
    ensures FirstMatch(names, value) == Some(p)
  {
    var r := FirstMatch(names, value);
    AtMostOneTag(value, r.value, p);
  }
}
