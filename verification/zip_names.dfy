/** The entry names of the report archive. Every report is filed under one of
    its two file names; a file name met again gets a counter suffix before
    its `.pdf`. `NameAll` is that loop as the download route writes it;
    `NameAllFresh` is the same loop with the counter skipping names the
    archive already holds, which the route model uses. */
module ZipNames {
  import opened Wrappers
  import opened Seqs
  import opened Text

  /** `fileName.replace(".pdf", `_${n}.pdf`)`: a no-op on a name without
      `.pdf`. */
  function Suffixed(name: string, n: nat): string {
    ReplaceFirst(name, ".pdf", "_" + NatToString(n) + ".pdf")
  }

  /** What the naming loop carries: the entry names given so far and, per
      file name, the counter `nameCounts` keeps for it. */
  datatype Naming = Naming(entries: seq<string>, counts: map<string, nat>)

  /** One turn of the naming loop as written: a file name not yet counted is
      kept and counted 1; one counted `c` is counted `c + 1` and given the
      suffix `_{c+1}`. */
  function NameStep(z: Naming, name: string): (r: Naming)
    ensures |r.entries| == |z.entries| + 1 && r.entries[..|z.entries|] == z.entries
    ensures name in z.counts ==> r.entries[|z.entries|] == Suffixed(name, z.counts[name] + 1)
    ensures name !in z.counts ==> r.entries[|z.entries|] == name
    ensures r.counts == z.counts[name := if name in z.counts then z.counts[name] + 1 else 1]
  {
    if name in z.counts then
      var n := z.counts[name] + 1;
      Naming(z.entries + [Suffixed(name, n)], z.counts[name := n])
    else
      Naming(z.entries + [name], z.counts[name := 1])
  }

  /** The naming loop over the first names, as written. */
  function NameAll(names: seq<string>): (z: Naming)
    ensures |z.entries| == |names|
    decreases |names|
  {
    if |names| == 0 then Naming([], map[])
    else NameStep(NameAll(names[..|names| - 1]), names[|names| - 1])
  }

  /** How many of the names before position `k` equal the name at `k`. */
  ghost function Earlier(names: seq<string>, k: nat): nat
    requires k < |names|
  {
    Count(names[..k], names[k])
  }

  /** The entry name a report gets, read off the names alone: the name itself
      at its first occurrence, the suffix `_{c+1}` at the occurrence with `c`
      before it. */
  ghost function EntryFor(names: seq<string>, k: nat): string
    requires k < |names|
  {
    if Earlier(names, k) == 0 then names[k] else Suffixed(names[k], Earlier(names, k) + 1)
  }

  /** The counter of a file name is the number of times it occurred. */
  lemma {:induction false} NameAllCounts(names: seq<string>)
    ensures forall x :: x in NameAll(names).counts <==> Count(names, x) > 0
    ensures forall x :: x in NameAll(names).counts ==> NameAll(names).counts[x] == Count(names, x)
    decreases |names|
  {
    if |names| > 0 {
      var init := names[..|names| - 1];
      NameAllCounts(init);
    }
  }

  /** The loop over a prefix of the names gives a prefix of the entries. */
  lemma {:induction false} NameAllPrefix(names: seq<string>, m: nat)
    requires m <= |names|
    ensures NameAll(names).entries[..m] == NameAll(names[..m]).entries
    decreases |names|
  {
    if m < |names| {
      var init := names[..|names| - 1];
      NameAllPrefix(init, m);
      assert init[..m] == names[..m];
      assert NameAll(names).entries[..|init|] == NameAll(init).entries;
      assert NameAll(names).entries[..m] == NameAll(names).entries[..|init|][..m];
    } else {
      assert names[..m] == names;
    }
  }

  /** Every entry name is the one `EntryFor` describes. */
  lemma NameAllMeaning(names: seq<string>)
    ensures forall k :: 0 <= k < |names| ==> NameAll(names).entries[k] == EntryFor(names, k)
  {
    forall k | 0 <= k < |names|
      ensures NameAll(names).entries[k] == EntryFor(names, k)
    {
      EntryAt(names, k);
    }
  }

  /** The entry name at `k` is the one `EntryFor` describes. */
  lemma EntryAt(names: seq<string>, k: nat)
    requires k < |names|
    ensures NameAll(names).entries[k] == EntryFor(names, k)
  {
    var pre := names[..k + 1];
    NameAllPrefix(names, k + 1);
    assert NameAll(names).entries[k] == NameAll(pre).entries[k];
    EntryOfLast(pre, k);
    EntryForPrefix(names, k);
  }

  /** `EntryFor` at `k` looks at the names up to `k` only. */
  lemma EntryForPrefix(names: seq<string>, k: nat)
    requires k < |names|
    ensures EntryFor(names[..k + 1], k) == EntryFor(names, k)
  {
    var pre := names[..k + 1];
    assert pre[..k] == names[..k];
    assert pre[k] == names[k];
    assert Earlier(pre, k) == Earlier(names, k);
  }

  /** The last entry name is the one `EntryFor` describes. */
  lemma EntryOfLast(names: seq<string>, k: nat)
    requires k + 1 == |names|
    ensures NameAll(names).entries[k] == EntryFor(names, k)
  {
    var z := NameAll(names[..k]);
    NameAllCounts(names[..k]);
    assert names[k] in z.counts <==> Earlier(names, k) > 0;
    if names[k] in z.counts {
      assert z.counts[names[k]] == Earlier(names, k);
    }
  }

  /** Names that are already distinct are all kept as they are. */
  lemma NameAllKeepsDistinct(names: seq<string>)
    requires Distinct(names)
    ensures NameAll(names).entries == names
  {
    NameAllMeaning(names);
    forall k | 0 <= k < |names|
      ensures NameAll(names).entries[k] == names[k]
    {
      assert names[k] !in names[..k];
      CountMembers(names[..k], names[k]);
    }
  }

  /** The names the loop gives need not be distinct: a file name that looks
      like a suffixed repeat of another is given twice. */
  lemma NameAllCollides()
    ensures NameAll(["a.pdf", "a.pdf", "a_2.pdf"]).entries == ["a.pdf", "a_2.pdf", "a_2.pdf"]
    ensures !Distinct(NameAll(["a.pdf", "a.pdf", "a_2.pdf"]).entries)
  {
    var names := ["a.pdf", "a.pdf", "a_2.pdf"];
    NamedTwice();
    var z2 := Naming(["a.pdf", "a_2.pdf"], map["a.pdf" := 2]);
    assert names[..2] == ["a.pdf", "a.pdf"];
    assert "a_2.pdf" !in z2.counts by {
      assert |"a_2.pdf"| != |"a.pdf"|;
    }
    assert NameAll(names) == NameStep(z2, "a_2.pdf");
    assert NameAll(names).entries[1] == NameAll(names).entries[2];
  }

  /** The first two names of the example: the repeat is renamed `a_2.pdf`. */
  lemma NamedTwice()
    ensures NameAll(["a.pdf", "a.pdf"]) == Naming(["a.pdf", "a_2.pdf"], map["a.pdf" := 2])
  {
    var names := ["a.pdf", "a.pdf"];
    SuffixedA2();
    assert names[..1] == ["a.pdf"];
    assert names[..1][..0] == [];
    var z1 := NameAll(["a.pdf"]);
    assert z1 == NameStep(NameAll([]), "a.pdf") == Naming(["a.pdf"], map["a.pdf" := 1]);
    assert NameAll(names) == NameStep(z1, "a.pdf");
  }

  /** `"a.pdf".replace(".pdf", "_2.pdf")` */
  lemma SuffixedA2()
    ensures Suffixed("a.pdf", 2) == "a_2.pdf"
  {
    assert IndexOf("a.pdf", ".pdf", 0) == Some(1) by {
      assert "a.pdf"[0..4][0] == 'a';
      assert !PrefixAt("a.pdf", 0, ".pdf");
      assert PrefixAt("a.pdf", 1, ".pdf");
    }
    assert NatToString(2) == "2";
  }

  /** A file name that is counted has been given as itself, and its counter
      is at least 1. */
  ghost predicate CountedKept(z: Naming) {
    forall x :: x in z.counts ==> x in z.entries && z.counts[x] >= 1
  }

  /** The loop as written keeps `CountedKept`. */
  lemma {:induction false} NameAllKeepsCounted(names: seq<string>)
    ensures CountedKept(NameAll(names))
    decreases |names|
  {
    if |names| > 0 {
      NameAllKeepsCounted(names[..|names| - 1]);
    }
  }

  // ---------------------------------------------------------------- distinct names

  /** The `n`-th name for a repeated `name`: the suffix goes before the first
      `.pdf`, or at the end when there is none. */
  function Variant(name: string, n: nat): string {
    if IndexOf(name, ".pdf", 0).Some? then Suffixed(name, n) else name + "_" + NatToString(n)
  }

  /** Different counters give different variants. */
  lemma VariantInjective(name: string, a: nat, b: nat)
    ensures a != b ==> Variant(name, a) != Variant(name, b)
  {
    match IndexOf(name, ".pdf", 0) {
      case Some(i) =>
        SuffixedShape(name, i, a);
        SuffixedShape(name, i, b);
        NumberedInjective(name[..i], ".pdf" + name[i + 4..], a, b);
      case None =>
        assert Variant(name, a) == name + ("_" + NatToString(a)) + [];
        assert Variant(name, b) == name + ("_" + NatToString(b)) + [];
        NumberedInjective(name, [], a, b);
    }
  }

  /** A suffixed name is the counter written between the part before the
      first `.pdf` and the `.pdf` with what follows it. */
  lemma SuffixedShape(name: string, i: nat, n: nat)
    requires IndexOf(name, ".pdf", 0) == Some(i)
    ensures Suffixed(name, n) == name[..i] + ("_" + NatToString(n)) + (".pdf" + name[i + 4..])
  {
    Regroup(name[..i], "_" + NatToString(n), ".pdf", name[i + 4..]);
  }

  /** Different counters written between the same two strings give
      different strings. */
  lemma NumberedInjective(pre: string, post: string, a: nat, b: nat)
    ensures a != b ==> pre + ("_" + NatToString(a)) + post != pre + ("_" + NatToString(b)) + post
  {
    var ta := "_" + NatToString(a);
    var tb := "_" + NatToString(b);
    if pre + ta + post == pre + tb + post {
      InsertInjective(pre, ta, tb, post);
      assert ta[1..] == NatToString(a) && tb[1..] == NatToString(b);
      NatToStringInjective(a, b);
    }
  }

  /** The middle of `pre + mid + post` is determined by the whole. */
  lemma InsertInjective(pre: string, m1: string, m2: string, post: string)
    requires pre + m1 + post == pre + m2 + post
    ensures m1 == m2
  {
    var w := pre + m1 + post;
    assert |m1| == |m2|;
    assert m1 == w[|pre|..|pre| + |m1|];
    assert m2 == (pre + m2 + post)[|pre|..|pre| + |m2|];
  }

  /** Among `|used| + 1` consecutive counters one has a variant not in `used`. */
  lemma {:induction false} FreeVariant(name: string, used: set<string>, from: nat)
    ensures exists m :: from <= m <= from + |used| && Variant(name, m) !in used
    decreases |used|
  {
    if Variant(name, from) in used {
      var rest := used - {Variant(name, from)};
      FreeVariant(name, rest, from + 1);
      var m :| from + 1 <= m <= from + 1 + |rest| && Variant(name, m) !in rest;
      VariantInjective(name, m, from);
      assert Variant(name, m) !in used;
    }
  }

  /** The least counter from `from` on whose variant is not taken. */
  function FirstFree(name: string, used: set<string>, from: nat, bound: nat): (n: nat)
    requires exists m :: from <= m <= bound && Variant(name, m) !in used
    ensures from <= n <= bound && Variant(name, n) !in used
    ensures forall m :: from <= m < n ==> Variant(name, m) in used
    decreases bound - from
  {
    if Variant(name, from) !in used then from else FirstFree(name, used, from + 1, bound)
  }

  /** The naming loop's state with the set of names given so far. */
  datatype FreshNaming = FreshNaming(entries: seq<string>, used: set<string>, counts: map<string, nat>)

  /** `used` is the set of the entry names, which are distinct. */
  ghost predicate Tracks(z: FreshNaming) {
    Distinct(z.entries) && z.used == Elements(z.entries)
  }

  /** The counter the search for a repeated name starts from: one above the
      name's counter, and at least 2. */
  function Start(z: FreshNaming, name: string): nat {
    var c := if name in z.counts then z.counts[name] else 0;
    (if c < 1 then 1 else c) + 1
  }

  /** An entry name with the counter it was found under. */
  datatype Pick = Pick(entry: string, count: nat)

  /** The entry name the next report gets: its file name when that is new to
      the archive, otherwise the variant with the least free counter from
      `Start` on. */
  function NextPick(z: FreshNaming, name: string): (p: Pick)
    ensures p.entry !in z.used
    ensures name !in z.counts && name !in z.used ==> p == Pick(name, 1)
    ensures name in z.counts || name in z.used ==>
      && Start(z, name) <= p.count
      && p.entry == Variant(name, p.count)
      && forall m :: Start(z, name) <= m < p.count ==> Variant(name, m) in z.used
  {
    if name !in z.counts && name !in z.used then Pick(name, 1)
    else
      var from := Start(z, name);
      FreeVariant(name, z.used, from);
      var n := FirstFree(name, z.used, from, from + |z.used|);
      Pick(Variant(name, n), n)
  }

  /** One turn of the corrected loop. */
  function Extend(z: FreshNaming, name: string): (r: FreshNaming)
    requires Tracks(z)
    ensures Tracks(r)
    ensures r.entries == z.entries + [NextPick(z, name).entry]
    ensures r.counts == z.counts[name := NextPick(z, name).count]
  {
    var p := NextPick(z, name);
    ElementsMembers(z.entries);
    assert z.entries + [p.entry] == (z.entries + [p.entry])[..|z.entries|] + [p.entry];
    FreshNaming(z.entries + [p.entry], z.used + {p.entry}, z.counts[name := p.count])
  }

  /** The naming loop with the counter skipping names already given: a file
      name new to the archive is kept, any other gets the least free suffix
      from above its counter on, and its counter moves to that suffix. */
  function NameAllFresh(names: seq<string>): (z: FreshNaming)
    ensures |z.entries| == |names|
    ensures Tracks(z)
    decreases |names|
  {
    if |names| == 0 then FreshNaming([], {}, map[])
    else Extend(NameAllFresh(names[..|names| - 1]), names[|names| - 1])
  }

  /** `entry` is `name` itself or one of its variants. */
  ghost predicate NamedAfter(entry: string, name: string) {
    entry == name || exists n :: n >= 2 && entry == Variant(name, n)
  }

  /** Each entry name is its report's file name or one of its variants. */
  lemma {:induction false} NameAllFreshShape(names: seq<string>)
    ensures forall k :: 0 <= k < |names| ==> NamedAfter(NameAllFresh(names).entries[k], names[k])
    decreases |names|
  {
    if |names| > 0 {
      var last := |names| - 1;
      var init := names[..last];
      NameAllFreshShape(init);
      var f := NameAllFresh(init);
      var p := NextPick(f, names[last]);
      assert NameAllFresh(names).entries == f.entries + [p.entry];
      if names[last] in f.counts || names[last] in f.used {
        assert p.count >= 2 && p.entry == Variant(names[last], p.count);
      }
      assert NamedAfter(p.entry, names[last]);
      forall k | 0 <= k < last
        ensures NamedAfter(NameAllFresh(names).entries[k], names[k])
      {
        assert names[k] == init[k];
      }
    }
  }

  /** One turn of each loop from the same state: where the turn as written
      gives a name not given before, the corrected turn gives the same name
      and counter. */
  lemma AgreeStep(z: Naming, f: FreshNaming, name: string)
    requires Tracks(f) && f.entries == z.entries && f.counts == z.counts
    requires CountedKept(z)
    requires Distinct(NameStep(z, name).entries)
    ensures Extend(f, name).entries == NameStep(z, name).entries
    ensures Extend(f, name).counts == NameStep(z, name).counts
  {
    var r := NameStep(z, name);
    var x := r.entries[|z.entries|];
    var p := NextPick(f, name);
    assert x !in f.used by {
      assert r.entries == z.entries + [x];
      DistinctSnoc(z.entries, x);
      ElementsMembers(f.entries);
    }
    if name in z.counts {
      var n := z.counts[name] + 1;
      assert IndexOf(name, ".pdf", 0).Some? by {
        assert name in f.used by { ElementsMembers(f.entries); }
      }
      assert Start(f, name) == n;
      assert p.count == n;
    } else {
      assert name !in f.used;
    }
  }

  /** Wherever the loop as written already gives distinct names, the
      corrected loop gives the very same names and counters. */
  lemma {:induction false} NameAllFreshAgrees(names: seq<string>)
    requires Distinct(NameAll(names).entries)
    ensures NameAllFresh(names).entries == NameAll(names).entries
    ensures NameAllFresh(names).counts == NameAll(names).counts
    decreases |names|
  {
    if |names| > 0 {
      var last := |names| - 1;
      var init := names[..last];
      var z := NameAll(init);
      var x := NameAll(names).entries[last];
      assert NameAll(names).entries == z.entries + [x];
      DistinctSnoc(z.entries, x);
      NameAllFreshAgrees(init);
      NameAllKeepsCounted(init);
      AgreeStep(z, NameAllFresh(init), names[last]);
    }
  }
}
