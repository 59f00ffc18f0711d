/**
 * `NameMatcher`: case-insensitive substring search of file names for latin names first and
 * Chinese names second, each side a leftmost-first multi-pattern automaton.
 *
 * The automaton is modelled by its answer, not by its construction: `Automaton.Find` returns the
 * occurrence that starts earliest in the text and, among the patterns that start there, the one
 * registered first.
 */
module Matcher {
  import opened Wrappers
  import opened Text
  import opened Types

  /** `p` occurs in `hay` starting at position `i`. */
  predicate OccursAt(p: string, hay: string, i: nat)
  {
    i + |p| <= |hay| && hay[i..i + |p|] == p
  }

  /** What `AhoCorasick::find` reports: where the match starts and which pattern it is. */
  datatype Hit = Hit(start: nat, pattern: nat)

  /** A leftmost-first automaton over its patterns, in registration order. */
  datatype Automaton = Automaton(patterns: seq<string>)
  {
    /** `find` with `MatchKind::LeftmostFirst`. */
    function Find(hay: string): (r: Option<Hit>)
      ensures r.Some? ==> r.value.pattern < |patterns| && OccursAt(patterns[r.value.pattern], hay, r.value.start)
      ensures r.Some? ==> forall j, q :: 0 <= j < r.value.start && 0 <= q < |patterns| ==> !OccursAt(patterns[q], hay, j)
      ensures r.Some? ==> forall q :: 0 <= q < r.value.pattern ==> !OccursAt(patterns[q], hay, r.value.start)
      ensures r.None? <==> forall j, q :: 0 <= j && 0 <= q < |patterns| ==> !OccursAt(patterns[q], hay, j)
    {
      FindFrom(hay, 0)
    }

    /** The leftmost-first hit among the occurrences starting at `from` or later. */
    function FindFrom(hay: string, from: nat): (r: Option<Hit>)
      ensures r.Some? ==> from <= r.value.start && r.value.pattern < |patterns|
      ensures r.Some? ==> OccursAt(patterns[r.value.pattern], hay, r.value.start)
      ensures r.Some? ==> forall j, q :: from <= j < r.value.start && 0 <= q < |patterns| ==> !OccursAt(patterns[q], hay, j)
      ensures r.Some? ==> forall q :: 0 <= q < r.value.pattern ==> !OccursAt(patterns[q], hay, r.value.start)
      ensures r.None? <==> forall j, q :: from <= j && 0 <= q < |patterns| ==> !OccursAt(patterns[q], hay, j)
      decreases |hay| + 1 - from
    {
      if from > |hay| then None
      else match FirstAt(hay, from, 0)
        case Some(k) => Some(Hit(from, k))
        case None => FindFrom(hay, from + 1)
    }

    /** The first pattern from position `k` on that occurs at `start`. */
    function FirstAt(hay: string, start: nat, k: nat): (r: Option<nat>)
      requires k <= |patterns|
      ensures r.Some? ==> k <= r.value < |patterns| && OccursAt(patterns[r.value], hay, start)
      ensures r.Some? ==> forall q :: k <= q < r.value ==> !OccursAt(patterns[q], hay, start)
      ensures r.None? <==> forall q :: k <= q < |patterns| ==> !OccursAt(patterns[q], hay, start)
      decreases |patterns| - k
    {
      if k == |patterns| then None
      else if OccursAt(patterns[k], hay, start) then Some(k)
      else FirstAt(hay, start, k + 1)
    }
  }

  /** The two name columns the matcher searches for. */
  datatype Script = Latin | Chinese

  function NameIn(e: IocEntry, s: Script): string
  {
    match s
    case Latin => e.latin
    case Chinese => e.chinese
  }

  /**
   * The pattern an entry contributes to side `s`: its trimmed name there, lowercased, or nothing
   * when the trimmed name is empty.
   */
  function Key(e: IocEntry, s: Script): Option<string>
  {
    var t := Trim(NameIn(e, s));
    if t == [] then None else Some(ToLower(t))
  }

  /** The pattern each entry contributes to side `s`, position by position. */
  function KeysOf(entries: seq<IocEntry>, s: Script): (r: seq<Option<string>>)
    ensures |r| == |entries|
    ensures forall i :: 0 <= i < |entries| ==> r[i] == Key(entries[i], s)
    ensures forall i :: 0 <= i < |entries| && r[i].Some? ==> r[i].value != [] && ToLower(r[i].value) == r[i].value
  {
    seq(|entries|, i requires 0 <= i < |entries| => Key(entries[i], s))
  }

  datatype NameMatcher = NameMatcher(
    latin: Option<Automaton>,
    latinMap: seq<nat>,
    chinese: Option<Automaton>,
    chineseMap: seq<nat>)

  /**
   * `pats` and `idxMap` are a pattern list and its pattern-to-entry map for the first `bound`
   * positions of `keys`: parallel, in entry order without repeats, and holding every entry that
   * contributes a pattern.
   */
  predicate PatternList(pats: seq<string>, idxMap: seq<nat>, keys: seq<Option<string>>, bound: nat)
    requires bound <= |keys|
  {
    && |pats| == |idxMap|
    && (forall j :: 0 <= j < |idxMap| ==> idxMap[j] < bound)
    && (forall j :: 0 <= j < |idxMap| ==> keys[idxMap[j]] == Some(pats[j]))
    && Increasing(idxMap)
    && (forall i :: 0 <= i < bound && keys[i].Some? ==> i in idxMap)
  }

  function PatternsOf(aut: Option<Automaton>): seq<string>
  {
    if aut.Some? then aut.value.patterns else []
  }

  /** One side of the matcher as `new` leaves it: no automaton exactly when there are no patterns. */
  predicate SideBuilt(aut: Option<Automaton>, idxMap: seq<nat>, keys: seq<Option<string>>)
  {
    && PatternList(PatternsOf(aut), idxMap, keys, |keys|)
    && (aut.None? <==> idxMap == [])
  }

  /** `m` is what `NameMatcher::new(entries)` returns. */
  predicate Built(m: NameMatcher, entries: seq<IocEntry>)
  {
    && SideBuilt(m.latin, m.latinMap, KeysOf(entries, Latin))
    && SideBuilt(m.chinese, m.chineseMap, KeysOf(entries, Chinese))
  }

  /** The automaton over a pattern list, or none when the list is empty. */
  function AutomatonOf(pats: seq<string>): (r: Option<Automaton>)
    ensures r.None? <==> pats == []
    ensures PatternsOf(r) == pats
  {
    if pats == [] then None else Some(Automaton(pats))
  }

  /** An entry that contributes a pattern is appended to the lists. */
  lemma PatternListPush(pats: seq<string>, idxMap: seq<nat>, keys: seq<Option<string>>, idx: nat)
    requires idx < |keys| && keys[idx].Some?
    requires PatternList(pats, idxMap, keys, idx)
    ensures PatternList(pats + [keys[idx].value], idxMap + [idx], keys, idx + 1)
  {
    var idxMap' := idxMap + [idx];
    forall i | 0 <= i < idx + 1 && keys[i].Some?
      ensures i in idxMap'
    {
      if i < idx {
        var j :| 0 <= j < |idxMap| && idxMap[j] == i;
        assert idxMap'[j] == i;
      } else {
        assert idxMap'[|idxMap|] == i;
      }
    }
  }

  /** An entry that contributes no pattern leaves the lists as they are. */
  lemma PatternListSkip(pats: seq<string>, idxMap: seq<nat>, keys: seq<Option<string>>, idx: nat)
    requires idx < |keys| && keys[idx].None?
    requires PatternList(pats, idxMap, keys, idx)
    ensures PatternList(pats, idxMap, keys, idx + 1)
  {
  }

  /**
   * The body of `new`'s loop for one side: push the entry's trimmed, lowercased name and its
   * index when the trimmed name is not empty.
   */
  method AddName(pats: seq<string>, idxMap: seq<nat>, ghost keys: seq<Option<string>>, idx: nat, name: string)
    returns (pats': seq<string>, idxMap': seq<nat>)
    requires idx < |keys| && keys[idx] == (var t := Trim(name); if t == [] then None else Some(ToLower(t)))
    requires PatternList(pats, idxMap, keys, idx)
    ensures PatternList(pats', idxMap', keys, idx + 1)
    ensures keys[idx].Some? ==> pats' == pats + [keys[idx].value] && idxMap' == idxMap + [idx]
    ensures keys[idx].None? ==> pats' == pats && idxMap' == idxMap
  {
    var trimmed := Trim(name);
    if trimmed != [] {
      PatternListPush(pats, idxMap, keys, idx);
      pats', idxMap' := pats + [ToLower(trimmed)], idxMap + [idx];
    } else {
      PatternListSkip(pats, idxMap, keys, idx);
      pats', idxMap' := pats, idxMap;
    }
  }

  /** `NameMatcher::new` */
  method New(entries: seq<IocEntry>) returns (m: NameMatcher)
    ensures Built(m, entries)
  {
    ghost var latinKeys := KeysOf(entries, Latin);
    ghost var chineseKeys := KeysOf(entries, Chinese);
    var latinPatterns: seq<string> := [];
    var latinMap: seq<nat> := [];
    var chinesePatterns: seq<string> := [];
    var chineseMap: seq<nat> := [];
    for idx := 0 to |entries|
      invariant PatternList(latinPatterns, latinMap, latinKeys, idx)
      invariant PatternList(chinesePatterns, chineseMap, chineseKeys, idx)
    {
      latinPatterns, latinMap := AddName(latinPatterns, latinMap, latinKeys, idx, entries[idx].latin);
      chinesePatterns, chineseMap := AddName(chinesePatterns, chineseMap, chineseKeys, idx, entries[idx].chinese);
    }
    m := NameMatcher(AutomatonOf(latinPatterns), latinMap, AutomatonOf(chinesePatterns), chineseMap);
  }

  /** `Vec::get(..).copied()` */
  function Get(xs: seq<nat>, i: nat): (r: Option<nat>)
    ensures r.Some? <==> i < |xs|
    ensures r.Some? ==> r.value == xs[i]
  {
    if i < |xs| then Some(xs[i]) else None
  }

  /** The entry a hit on one side resolves to, if that side has an automaton and it finds something. */
  function SideMatch(aut: Option<Automaton>, idxMap: seq<nat>, name: string): Option<nat>
  {
    match aut
    case None => None
    case Some(a) =>
      match a.Find(name)
      case None => None
      case Some(hit) => Get(idxMap, hit.pattern)
  }

  /** `NameMatcher::match_name`: the latin side if it finds anything, otherwise the Chinese side. */
  function MatchName(m: NameMatcher, fileName: string): Option<nat>
  {
    var name := ToLower(fileName);
    if m.latin.Some? && m.latin.value.Find(name).Some? then SideMatch(m.latin, m.latinMap, name)
    else SideMatch(m.chinese, m.chineseMap, name)
  }

  // ---------------------------------------------------------------------------------------------
  // What `match_name` promises, stated over the entries' patterns rather than over the automata.

  /** Some entry's pattern occurs somewhere in `hay`. */
  ghost predicate AnyOccurs(keys: seq<Option<string>>, hay: string)
  {
    exists i, p :: 0 <= i < |keys| && 0 <= p && keys[i].Some? && OccursAt(keys[i].value, hay, p)
  }

  /** Entry `i`'s pattern occurs at `start`, no pattern occurs earlier, and no earlier entry's occurs there. */
  ghost predicate LeftmostFirstAt(keys: seq<Option<string>>, hay: string, i: nat, start: nat)
  {
    && i < |keys| && keys[i].Some? && OccursAt(keys[i].value, hay, start)
    && (forall j, p :: 0 <= j < |keys| && 0 <= p < start && keys[j].Some? ==> !OccursAt(keys[j].value, hay, p))
    && (forall j :: 0 <= j < i && keys[j].Some? ==> !OccursAt(keys[j].value, hay, start))
  }

  /** Entry `i` is the leftmost-first match in `hay`. */
  ghost predicate Winner(keys: seq<Option<string>>, hay: string, i: nat)
  {
    exists start: nat :: LeftmostFirstAt(keys, hay, i, start)
  }

  /** The leftmost-first rule leaves no choice: at most one entry wins. */
  lemma WinnerUnique(keys: seq<Option<string>>, hay: string, i: nat, k: nat)
    requires Winner(keys, hay, i) && Winner(keys, hay, k)
    ensures i == k
  {
    var a: nat :| LeftmostFirstAt(keys, hay, i, a);
    var b: nat :| LeftmostFirstAt(keys, hay, k, b);
  }

  /** A hit of a built side resolves to the leftmost-first entry. */
  lemma HitIsWinner(a: Automaton, idxMap: seq<nat>, keys: seq<Option<string>>, hay: string)
    requires PatternList(a.patterns, idxMap, keys, |keys|)
    requires a.Find(hay).Some?
    ensures a.Find(hay).value.pattern < |idxMap|
    ensures Winner(keys, hay, idxMap[a.Find(hay).value.pattern])
  {
    var hit := a.Find(hay).value;
    var w := idxMap[hit.pattern];
    forall j, p | 0 <= j < |keys| && 0 <= p < hit.start && keys[j].Some?
      ensures !OccursAt(keys[j].value, hay, p)
    {
      var q :| 0 <= q < |idxMap| && idxMap[q] == j;
      assert !OccursAt(a.patterns[q], hay, p);
    }
    forall j | 0 <= j < w && keys[j].Some?
      ensures !OccursAt(keys[j].value, hay, hit.start)
    {
      var q :| 0 <= q < |idxMap| && idxMap[q] == j;
      assert q < hit.pattern;
      assert !OccursAt(a.patterns[q], hay, hit.start);
    }
    assert LeftmostFirstAt(keys, hay, w, hit.start);
  }

  /** An occurrence of any entry's pattern makes that side's automaton find something. */
  lemma OccurrenceGivesHit(aut: Option<Automaton>, idxMap: seq<nat>, keys: seq<Option<string>>, hay: string)
    requires SideBuilt(aut, idxMap, keys)
    requires AnyOccurs(keys, hay)
    ensures aut.Some? && aut.value.Find(hay).Some?
  {
    var i, p :| 0 <= i < |keys| && 0 <= p && keys[i].Some? && OccursAt(keys[i].value, hay, p);
    var q :| 0 <= q < |idxMap| && idxMap[q] == i;
    assert OccursAt(PatternsOf(aut)[q], hay, p);
  }

  /** What one side of a built matcher answers, in terms of the entries' patterns. */
  lemma SideMatchSpec(aut: Option<Automaton>, idxMap: seq<nat>, keys: seq<Option<string>>, hay: string)
    requires SideBuilt(aut, idxMap, keys)
    ensures aut.Some? && aut.value.Find(hay).Some? <==> AnyOccurs(keys, hay)
    ensures SideMatch(aut, idxMap, hay).None? <==> !AnyOccurs(keys, hay)
    ensures SideMatch(aut, idxMap, hay).Some? ==> Winner(keys, hay, SideMatch(aut, idxMap, hay).value)
  {
    if AnyOccurs(keys, hay) {
      OccurrenceGivesHit(aut, idxMap, keys, hay);
    }
    if aut.Some? && aut.value.Find(hay).Some? {
      HitIsWinner(aut.value, idxMap, keys, hay);
    }
  }

  /** A latin hit anywhere decides the result, and it is the leftmost-first latin entry. */
  lemma MatchLatinFirst(m: NameMatcher, entries: seq<IocEntry>, fileName: string)
    requires Built(m, entries)
    requires AnyOccurs(KeysOf(entries, Latin), ToLower(fileName))
    ensures MatchName(m, fileName).Some?
    ensures Winner(KeysOf(entries, Latin), ToLower(fileName), MatchName(m, fileName).value)
  {
    SideMatchSpec(m.latin, m.latinMap, KeysOf(entries, Latin), ToLower(fileName));
  }

  /** Without a latin hit, the result is the leftmost-first Chinese entry. */
  lemma MatchChineseFallback(m: NameMatcher, entries: seq<IocEntry>, fileName: string)
    requires Built(m, entries)
    requires !AnyOccurs(KeysOf(entries, Latin), ToLower(fileName))
    requires AnyOccurs(KeysOf(entries, Chinese), ToLower(fileName))
    ensures MatchName(m, fileName).Some?
    ensures Winner(KeysOf(entries, Chinese), ToLower(fileName), MatchName(m, fileName).value)
  {
    SideMatchSpec(m.latin, m.latinMap, KeysOf(entries, Latin), ToLower(fileName));
    SideMatchSpec(m.chinese, m.chineseMap, KeysOf(entries, Chinese), ToLower(fileName));
  }

  /** Nothing matches exactly when no pattern of either side occurs; any result is a valid entry index. */
  lemma MatchNoneIff(m: NameMatcher, entries: seq<IocEntry>, fileName: string)
    requires Built(m, entries)
    ensures MatchName(m, fileName).None? <==>
      !AnyOccurs(KeysOf(entries, Latin), ToLower(fileName)) && !AnyOccurs(KeysOf(entries, Chinese), ToLower(fileName))
    ensures MatchName(m, fileName).Some? ==> MatchName(m, fileName).value < |entries|
  {
    SideMatchSpec(m.latin, m.latinMap, KeysOf(entries, Latin), ToLower(fileName));
    SideMatchSpec(m.chinese, m.chineseMap, KeysOf(entries, Chinese), ToLower(fileName));
  }

  /** Every entry index the matcher can hand out is below `n`. */
  predicate MapsInto(m: NameMatcher, n: nat)
  {
    && (forall j :: 0 <= j < |m.latinMap| ==> m.latinMap[j] < n)
    && (forall j :: 0 <= j < |m.chineseMap| ==> m.chineseMap[j] < n)
  }

  predicate Increasing(xs: seq<nat>)
  {
    forall a, b :: 0 <= a < b < |xs| ==> xs[a] < xs[b]
  }

  lemma HeadIn(ys: seq<nat>)
    requires ys != []
    ensures ys[0] in ys
  {
  }

  /** Two strictly increasing sequences with the same elements are equal. */
  lemma {:induction false} IncreasingUnique(xs: seq<nat>, ys: seq<nat>)
    requires Increasing(xs) && Increasing(ys)
    requires forall v :: v in xs <==> v in ys
    ensures xs == ys
    decreases |xs|
  {
    if xs == [] {
      if ys != [] {
        HeadIn(ys);
        assert false;
      }
    } else {
      assert xs[0] in ys && ys != [];
      assert ys[0] in xs;
      assert xs[0] == ys[0];
      forall v ensures v in xs[1..] <==> v in ys[1..] {
        if v in xs[1..] {
          var k :| 1 <= k < |xs| && xs[k] == v;
          assert v in ys && v != ys[0];
        }
        if v in ys[1..] {
          var k :| 1 <= k < |ys| && ys[k] == v;
          assert v in xs && v != xs[0];
        }
      }
      IncreasingUnique(xs[1..], ys[1..]);
    }
  }

  /** A complete pattern list is determined by the keys: the patterns of the non-empty keys, in key order. */
  lemma PatternListUnique(p1: seq<string>, m1: seq<nat>, p2: seq<string>, m2: seq<nat>, keys: seq<Option<string>>)
    requires PatternList(p1, m1, keys, |keys|) && PatternList(p2, m2, keys, |keys|)
    ensures p1 == p2 && m1 == m2
  {
    forall v ensures v in m1 <==> v in m2 {
      if v in m1 {
        var j :| 0 <= j < |m1| && m1[j] == v;
        assert keys[v] == Some(p1[j]);
      }
      if v in m2 {
        var j :| 0 <= j < |m2| && m2[j] == v;
        assert keys[v] == Some(p2[j]);
      }
    }
    IncreasingUnique(m1, m2);
    assert forall j :: 0 <= j < |p1| ==> Some(p1[j]) == keys[m1[j]] == Some(p2[j]);
  }

  /**
   * The entries determine the matcher: any two matchers built for the same entries are equal,
   * so `Built` specifies `NameMatcher::new` completely.
   */
  lemma BuiltUnique(m1: NameMatcher, m2: NameMatcher, entries: seq<IocEntry>)
    requires Built(m1, entries) && Built(m2, entries)
    ensures m1 == m2
  {
    PatternListUnique(PatternsOf(m1.latin), m1.latinMap, PatternsOf(m2.latin), m2.latinMap, KeysOf(entries, Latin));
    PatternListUnique(PatternsOf(m1.chinese), m1.chineseMap, PatternsOf(m2.chinese), m2.chineseMap, KeysOf(entries, Chinese));
  }

  lemma BuiltMapsInto(m: NameMatcher, entries: seq<IocEntry>)
    requires Built(m, entries)
    ensures MapsInto(m, |entries|)
  {
  }

  /** A matcher whose maps point below `n` only ever returns indices below `n`. */
  lemma MatchInRange(m: NameMatcher, n: nat, fileName: string)
    requires MapsInto(m, n)
    ensures MatchName(m, fileName).Some? ==> MatchName(m, fileName).value < n
  {
  }

  /** Matching ignores the case of ASCII letters in the file name. */
  lemma MatchCaseInsensitive(m: NameMatcher, fileName: string, other: string)
    requires ToLower(fileName) == ToLower(other)
    ensures MatchName(m, fileName) == MatchName(m, other)
  {
  }

  /** A side has no automaton exactly when no entry contributes a pattern, and then it never matches. */
  lemma EmptySideNeverMatches(aut: Option<Automaton>, idxMap: seq<nat>, keys: seq<Option<string>>, hay: string)
    requires SideBuilt(aut, idxMap, keys)
    ensures aut.None? <==> forall i :: 0 <= i < |keys| ==> keys[i].None?
    ensures aut.None? ==> SideMatch(aut, idxMap, hay).None?
  {
    if idxMap != [] {
      assert keys[idxMap[0]].Some?;
    }
  }

  /**
   * A pattern keeps the space between genus and species, so it occurs only in a name that has a
   * space: "turdus_merula_01" does not match "Turdus merula", while "turdus merula 01" does.
   */
  lemma SpacedPatternNeedsSpace(keys: seq<Option<string>>, hay: string, i: nat, p: nat)
    requires i < |keys| && keys[i].Some? && ' ' in keys[i].value
    requires OccursAt(keys[i].value, hay, p)
    ensures ' ' in hay
  {
    var k :| 0 <= k < |keys[i].value| && keys[i].value[k] == ' ';
    assert hay[p..p + |keys[i].value|][k] == hay[p + k];
  }
}
