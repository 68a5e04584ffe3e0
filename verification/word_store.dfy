/**
 * The word catalogue: a map from category name to word list. Loading cleans the document
 * (keys and words normalised, each list deduplicated and sorted); `pick` chooses a word,
 * `addWord` and `removeWord` edit one list and leave every other list alone.
 */
module WordStore {
  import opened Wrappers
  import opened Text
  import opened Seqs

  /** Category name to word list, as held in memory after loading. */
  type Store = map<string, seq<string>>

  /** One entry of the stored document: a category key and its array, or `null`. */
  type RawEntry = (string, Option<seq<string>>)

  /** The errors `pick` and `removeWord` throw. */
  datatype CatalogError =
    | EmptyCategory(category: string)   // the chosen category has no words
    | NoCategoryWithWords               // a random choice found no category with words
    | UnknownCategory(category: string)
    | UnknownWord(category: string, word: string)

  datatype Picked = Picked(word: string, category: string)

  /** A word list as loading leaves it: sorted, without duplicates, every word normalised. */
  predicate CleanList(l: seq<string>)
  {
    StrictlySorted(l) && forall i :: 0 <= i < |l| ==> IsNormal(l[i])
  }

  /** A catalogue as loading leaves it. */
  predicate Loaded(st: Store)
  {
    forall k :: k in st ==> IsNormal(k) && CleanList(st[k])
  }

  // ----- loading -----

  /** `Array.from(new Set((arr ?? []).map(normalize))).sort()`. */
  function CleanWords(arr: Option<seq<string>>): (r: seq<string>)
    ensures CleanList(r)
    ensures forall w :: w in r <==> arr.Some? && exists v :: v in arr.value && Normalize(v) == w
  {
    var words := if arr.Some? then arr.value else [];
    var s := set v | v in words :: Normalize(v);
    var r := SortedOf(s);
    assert forall i :: 0 <= i < |r| ==> IsNormal(r[i]) by {
      forall i | 0 <= i < |r| ensures IsNormal(r[i]) {
        assert r[i] in s;
        var v :| v in words && Normalize(v) == r[i];
        NormalizeIdempotent(v);
      }
    }
    r
  }

  /** The normalised keys of the document's entries. */
  function RawKeys(raw: seq<RawEntry>): set<string>
  {
    set e | e in raw :: Normalize(e.0)
  }

  /** The catalogue the loading loop builds from the document's entries; a later key overwrites an earlier one that normalises alike. */
  function LoadSpec(raw: seq<RawEntry>): (st: Store)
    ensures Loaded(st)
  {
    if raw == [] then map[]
    else
      var e := raw[|raw| - 1];
      NormalizeIdempotent(e.0);
      LoadSpec(raw[..|raw| - 1])[Normalize(e.0) := CleanWords(e.1)]
  }

  /** Loading keeps exactly the normalised keys of the document. */
  lemma {:induction false} LoadKeys(raw: seq<RawEntry>)
    ensures LoadSpec(raw).Keys == RawKeys(raw)
  {
    if raw != [] {
      var prefix, e := raw[..|raw| - 1], raw[|raw| - 1];
      LoadKeys(prefix);
      forall x | x in RawKeys(raw) ensures x in RawKeys(prefix) || x == Normalize(e.0) {
        var f :| f in raw && Normalize(f.0) == x;
        if f != e {
          assert f in prefix;
        }
      }
      forall x | x in RawKeys(prefix) ensures x in RawKeys(raw) {
        var f :| f in prefix && Normalize(f.0) == x;
        assert f in raw;
      }
    }
  }

  /** The list stored under a key is the cleaned array of the LAST entry whose key normalises to it. */
  lemma {:induction false} LoadLastWins(raw: seq<RawEntry>, i: nat)
    requires i < |raw|
    requires forall j :: i < j < |raw| ==> Normalize(raw[j].0) != Normalize(raw[i].0)
    ensures Normalize(raw[i].0) in LoadSpec(raw) && LoadSpec(raw)[Normalize(raw[i].0)] == CleanWords(raw[i].1)
  {
    if i < |raw| - 1 {
      var prefix := raw[..|raw| - 1];
      assert prefix[i] == raw[i];
      forall j | i < j < |prefix| ensures Normalize(prefix[j].0) != Normalize(prefix[i].0) {
        assert prefix[j] == raw[j];
      }
      LoadLastWins(prefix, i);
    }
  }

  /** `loadStore`: the cleaning loop over the document's entries. */
  method LoadStore(raw: seq<RawEntry>) returns (st: Store)
    ensures st == LoadSpec(raw)
    ensures Loaded(st)
  {
    st := map[];
    for i := 0 to |raw|
      invariant st == LoadSpec(raw[..i])
    {
      assert raw[..i + 1][..i] == raw[..i];
      st := st[Normalize(raw[i].0) := CleanWords(raw[i].1)];
    }
    assert raw[..|raw|] == raw;
  }

  // ----- reading -----

  /** `getCategories`: every category name once, in order. */
  function GetCategories(st: Store): (cats: seq<string>)
    ensures StrictlySorted(cats)
    ensures forall c :: c in cats <==> c in st
    ensures |cats| == |st|
  {
    SortedOf(st.Keys)
  }

  /** The categories that hold at least one word, in catalogue order. */
  function NonEmptyCategories(st: Store): (cats: seq<string>)
    ensures forall c :: c in cats <==> c in st && |st[c]| > 0
    ensures NoDup(cats)
  {
    var all := GetCategories(st);
    StrictlySortedNoDup(all);
    FilterNoDup((c: string) => c in st && |st[c]| > 0, all);
    Filter((c: string) => c in st && |st[c]| > 0, all)
  }

  /**
   * The category `pick` draws from: the requested one after normalisation when it is a key other
   * than "random", otherwise one drawn among the categories with words, or none when there is none.
   */
  function ChooseCategory(st: Store, category: string, roll: nat): (chosen: Option<string>)
    ensures chosen.Some? ==> chosen.value in st
    ensures var c := Normalize(category); c != "random" && c in st ==> chosen == Some(c)
    ensures var c := Normalize(category);
      (c == "random" || c !in st) ==>
        (chosen.Some? <==> exists k :: k in st && |st[k]| > 0)
        && (chosen.Some? ==> |st[chosen.value]| > 0)
  {
    var c := Normalize(category);
    if c == "random" || c !in st then
      var candidates := NonEmptyCategories(st);
      if |candidates| == 0 then None else Some(candidates[roll % |candidates|])
    else Some(c)
  }

  /**
   * `pick`: the requested category after normalisation, or, when it is "random" or not a key,
   * a category drawn among those with words; then a word drawn from that category. The two
   * draws are the caller-supplied rolls, reduced modulo the number of candidates.
   */
  function Pick(st: Store, category: string, rollCategory: nat, rollWord: nat): (r: Result<Picked, CatalogError>)
    ensures r.Success? ==> r.value.category in st && r.value.word in st[r.value.category]
    ensures var c := Normalize(category);
      c != "random" && c in st ==>
        (r.Success? <==> |st[c]| > 0) && (r.Success? ==> r.value.category == c)
        && (r.Failure? ==> r.error == EmptyCategory(c))
    ensures var c := Normalize(category);
      (c == "random" || c !in st) ==>
        (r.Success? <==> exists k :: k in st && |st[k]| > 0)
        && (r.Failure? ==> r.error == NoCategoryWithWords)
  {
    var chosen := ChooseCategory(st, category, rollCategory);
    if chosen.None? then Failure(NoCategoryWithWords)
    else
      var list := st[chosen.value];
      if |list| == 0 then Failure(EmptyCategory(chosen.value))
      else Success(Picked(list[rollWord % |list|], chosen.value))
  }

  /** The category name "random" is its own normal form, so a pick of it always draws a category. */
  lemma RandomIsNormal()
    ensures IsNormal("random")
  {
    PlainIsNormal("random");
  }

  /** Every word of every category with words can be drawn by a random pick. */
  lemma PickRandomReaches(st: Store, k: string, i: nat)
    requires k in st && i < |st[k]|
    ensures exists a: nat :: Pick(st, "random", a, i) == Success(Picked(st[k][i], k))
  {
    var candidates := NonEmptyCategories(st);
    assert k in candidates;
    var a :| 0 <= a < |candidates| && candidates[a] == k;
    RandomIsNormal();
    ModSmall(a, |candidates|);
    assert ChooseCategory(st, "random", a) == Some(k);
    ModSmall(i, |st[k]|);
    assert Pick(st, "random", a, i) == Success(Picked(st[k][i], k));
  }

  /** Every word of a category can be drawn by naming it, unless its name is "random". */
  lemma PickNamedReaches(st: Store, k: string, i: nat)
    requires k in st && i < |st[k]| && IsNormal(k) && k != "random"
    ensures Pick(st, k, 0, i) == Success(Picked(st[k][i], k))
  {
    ModSmall(i, |st[k]|);
  }

  // ----- editing -----

  /** `addWord` on a catalogue: the new catalogue and whether it is saved. */
  function AddWordSpec(st: Store, category: string, word: string): (r: (Store, bool))
    ensures Normalize(category) in r.0 && Normalize(word) in r.0[Normalize(category)]
    ensures r.1 <==> !(Normalize(category) in st && Normalize(word) in st[Normalize(category)])
  {
    var c, w := Normalize(category), Normalize(word);
    var list := if c in st then st[c] else [];
    if w in list then (st, false)
    else
      assert w in multiset(Insert(list, w));
      (st[c := Insert(list, w)], true)
  }

  /**
   * `addWord` touches one list: an unsaved call changes nothing (the empty list it may create
   * is never written back), a saved one adds the word to that list and keeps every other list.
   */
  lemma AddWordFrame(st: Store, category: string, word: string)
    ensures var (st', saved) := AddWordSpec(st, category, word);
      var c, w := Normalize(category), Normalize(word);
      && (!saved ==> st' == st)
      && (saved ==>
            && st'.Keys == st.Keys + {c}
            && (forall k :: k in st && k != c ==> st'[k] == st[k])
            && multiset(st'[c]) == multiset(if c in st then st[c] else []) + multiset{w})
  {
  }

  /** On a loaded catalogue, `addWord` leaves every list sorted, duplicate-free and normalised. */
  lemma {:induction false} AddWordKeepsLoaded(st: Store, category: string, word: string)
    requires Loaded(st)
    ensures Loaded(AddWordSpec(st, category, word).0)
  {
    var c, w := Normalize(category), Normalize(word);
    var list := if c in st then st[c] else [];
    if w !in list {
      InsertSorted(list, w);
      NormalizeIdempotent(category);
      NormalizeIdempotent(word);
      forall x | x in Insert(list, w) ensures IsNormal(x) {
        assert x in multiset(Insert(list, w));
        assert x == w || x in list;
      }
    }
  }

  lemma SpliceSorted(l: seq<string>, i: nat)
    requires StrictlySorted(l) && i < |l|
    ensures StrictlySorted(l[..i] + l[i + 1..])
    ensures l[i] !in l[..i] + l[i + 1..]
  {
    var s := l[..i] + l[i + 1..];
    assert forall j :: 0 <= j < |s| ==> s[j] == if j < i then l[j] else l[j + 1];
    forall j | 0 <= j < |s| ensures s[j] != l[i] {
      if j < i { LessIrreflexive(l[j]); } else { LessIrreflexive(l[i]); }
    }
  }

  /** `removeWord` on a catalogue: the catalogue without the word, or the error thrown before any change. */
  function RemoveWordSpec(st: Store, category: string, word: string): (r: Result<Store, CatalogError>)
    ensures Normalize(category) !in st ==> r == Failure(UnknownCategory(Normalize(category)))
    ensures Normalize(category) in st && Normalize(word) !in st[Normalize(category)] ==>
      r == Failure(UnknownWord(Normalize(category), Normalize(word)))
    ensures Normalize(category) in st && Normalize(word) in st[Normalize(category)] ==> r.Success?
  {
    var c, w := Normalize(category), Normalize(word);
    if c !in st then Failure(UnknownCategory(c))
    else
      var list := st[c];
      var idx := IndexOf(list, w);
      if idx == -1 then Failure(UnknownWord(c, w))
      else Success(st[c := list[..idx] + list[idx + 1..]])
  }

  /** A successful `removeWord` takes one occurrence of the word out of its list and keeps every other list. */
  lemma RemoveWordFrame(st: Store, category: string, word: string)
    requires RemoveWordSpec(st, category, word).Success?
    ensures var st', c, w := RemoveWordSpec(st, category, word).value, Normalize(category), Normalize(word);
      && st'.Keys == st.Keys
      && (forall k :: k in st && k != c ==> st'[k] == st[k])
      && multiset(st'[c]) == multiset(st[c]) - multiset{w}
  {
    var c, w := Normalize(category), Normalize(word);
    var list := st[c];
    var idx := IndexOf(list, w);
    assert list == list[..idx] + [list[idx]] + list[idx + 1..];
  }

  /** On a loaded catalogue, a successful `removeWord` keeps the lists clean and leaves no copy of the word behind. */
  lemma RemoveWordKeepsLoaded(st: Store, category: string, word: string)
    requires Loaded(st) && RemoveWordSpec(st, category, word).Success?
    ensures var st' := RemoveWordSpec(st, category, word).value;
      Loaded(st') && Normalize(word) !in st'[Normalize(category)]
  {
    var c, w := Normalize(category), Normalize(word);
    var list := st[c];
    var idx := IndexOf(list, w);
    var spliced := list[..idx] + list[idx + 1..];
    SpliceSorted(list, idx);
    forall x | x in spliced ensures IsNormal(x) {
      assert x in list;
    }
  }

  lemma MapSetTwice(st: Store, c: string, a: seq<string>, b: seq<string>)
    ensures st[c := a][c := b] == st[c := b]
  {
  }

  lemma MapSetSame(st: Store, c: string)
    requires c in st
    ensures st[c := st[c]] == st
  {
  }

  /** Adding a word twice is the same as adding it once, and the second add saves nothing. */
  lemma AddWordIdempotent(st: Store, category: string, word: string)
    ensures var st1 := AddWordSpec(st, category, word).0;
      AddWordSpec(st1, category, word) == (st1, false)
  {
  }

  /**
   * On a loaded catalogue, adding an absent word and then removing it gives back the catalogue,
   * except that a category the add created stays behind with an empty list.
   */
  lemma {:induction false} AddThenRemoveRoundTrip(st: Store, category: string, word: string)
    requires var c := Normalize(category); c in st ==> StrictlySorted(st[c]) && Normalize(word) !in st[c]
    ensures var c := Normalize(category);
      RemoveWordSpec(AddWordSpec(st, category, word).0, category, word)
        == Success(if c in st then st else st[c := []])
  {
    var c, w := Normalize(category), Normalize(word);
    var list := if c in st then st[c] else [];
    assert StrictlySorted(list) && w !in list;
    var r := Insert(list, w);
    var st1 := st[c := r];
    assert AddWordSpec(st, category, word).0 == st1;
    InsertThenRemove(list, w);
    var i := IndexOf(r, w);
    assert RemoveWordSpec(st1, category, word) == Success(st1[c := r[..i] + r[i + 1..]]);
    assert r[..i] + r[i + 1..] == list;
    MapSetTwice(st, c, r, list);
    if c in st {
      MapSetSame(st, c);
    }
  }

  /** The catalogue as the bot's commands see it: the document after loading, edited in place. */
  class Catalog {
    var store: Store

    ghost predicate Valid()
      reads this
    {
      Loaded(store)
    }

    constructor Load(raw: seq<RawEntry>)
      ensures Valid() && store == LoadSpec(raw)
    {
      var st := LoadStore(raw);
      store := st;
    }

    /** `addWord`: returns whether the catalogue changed (and would be saved). */
    method AddWord(category: string, word: string) returns (saved: bool)
      requires Valid()
      modifies this
      ensures Valid()
      ensures store == AddWordSpec(old(store), category, word).0
      ensures saved == AddWordSpec(old(store), category, word).1
    {
      AddWordKeepsLoaded(store, category, word);
      var cat := Normalize(category);
      var w := Normalize(word);
      var list := if cat in store then store[cat] else [];
      if w !in list {
        store := store[cat := Insert(list, w)];
        saved := true;
      } else {
        saved := false;
      }
    }

    /** `removeWord`: fails, changing nothing, when the category or the word is missing. */
    method RemoveWord(category: string, word: string) returns (r: Outcome<CatalogError>)
      requires Valid()
      modifies this
      ensures Valid()
      ensures RemoveWordSpec(old(store), category, word).Success? ==>
        r == Pass && store == RemoveWordSpec(old(store), category, word).value
      ensures RemoveWordSpec(old(store), category, word).Failure? ==>
        r == Fail(RemoveWordSpec(old(store), category, word).error) && store == old(store)
    {
      var cat := Normalize(category);
      var w := Normalize(word);
      if cat !in store {
        return Fail(UnknownCategory(cat));
      }
      var idx := IndexOf(store[cat], w);
      if idx == -1 {
        return Fail(UnknownWord(cat, w));
      }
      var list := store[cat];
      ghost var st := store;
      store := store[cat := list[..idx] + list[idx + 1..]];
      r := Pass;
      assert RemoveWordSpec(st, category, word) == Success(store);
      RemoveWordKeepsLoaded(st, category, word);
    }
  }
}
