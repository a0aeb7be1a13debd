/** The string logic of the prompt decomposer: article insertion, the
    background test, and the dedupe / relation / merge / filter steps of
    `decompose_prompt`. The spaCy parse is an input: the noun chunks in
    order (each with its text and the text of its root token) and the
    (noun, preposition, noun) triples found in the dependency tree. */
module PromptNLP {
  import opened Strings

  /** Python's `s.isdigit()` for ASCII: non-empty and all decimal digits. */
  predicate IsDigits(s: string) {
    |s| > 0 && forall i :: 0 <= i < |s| ==> '0' <= s[i] <= '9'
  }

  /** Whether `make_independent_prompt` keeps `text` as it is: it starts
      with a numeral, or with "the" followed by more words, or its last
      word looks plural. */
  predicate KeepsAsIs(ws: seq<string>)
    requires ws != []
  {
    IsDigits(ws[0]) || (|ws| > 1 && Lower(ws[0]) == "the") || EndsWith(ws[|ws| - 1], "s")
  }

  /** `make_independent_prompt`: `text`, or "a " + `text` for what looks
      like a bare singular noun. `words[0]` is indexed, so the text must
      hold a word. */
  function MakeIndependentPrompt(text: string): (r: string)
    requires !AllSpace(text)
    ensures Words(text) != []
    ensures r == text <==> KeepsAsIs(Words(text))
    ensures r == "a " + text <==> !KeepsAsIs(Words(text))
  {
    WordsEmptyIffAllSpace(text);
    var words := Words(text);
    if IsDigits(words[0]) || (|words| > 1 && Lower(words[0]) == "the") then text
    else if EndsWith(words[|words| - 1], "s") then text
    else "a " + text
  }

  /** "a " in front of a text adds exactly one word, "a". */
  lemma WordsWithArticle(text: string)
    ensures Words("a " + text) == ["a"] + Words(text)
  {
    var s := "a " + text;
    WordLengthPrefix("a", " " + text);
    assert s == "a" + (" " + text);
    assert s[..1] == "a";
    assert s[1..] == " " + text;
    assert (" " + text)[1..] == text;
  }

  /** The result always reads as a standalone noun phrase: its words are
      the input's words, possibly after "a", and it starts with a numeral,
      "a" or "the", or ends with a plural-looking word. */
  lemma IndependentPromptWords(text: string)
    requires !AllSpace(text)
    ensures Words(MakeIndependentPrompt(text)) == Words(text) ||
            Words(MakeIndependentPrompt(text)) == ["a"] + Words(text)
    ensures var ws := Words(MakeIndependentPrompt(text));
      ws != [] && (IsDigits(ws[0]) || Lower(ws[0]) == "the" || ws[0] == "a" || EndsWith(ws[|ws| - 1], "s"))
  {
    WordsWithArticle(text);
  }

  lemma IndependentPromptDog()
    ensures !AllSpace("dog") && MakeIndependentPrompt("dog") == "a dog"
  {
    assert !IsSpace("dog"[0]);
    WordsOfWord("dog");
    assert Lower("dog")[0] == 'd';
    assert "dog"[2] != 's';
  }

  lemma IndependentPromptCats()
    ensures !AllSpace("cats") && MakeIndependentPrompt("cats") == "cats"
  {
    assert !IsSpace("cats"[0]);
    WordsOfWord("cats");
    assert "cats"[3..] == "s";
  }

  lemma IndependentPromptTwoDogs()
    ensures !AllSpace("two dogs") && MakeIndependentPrompt("two dogs") == "two dogs"
  {
    assert !IsSpace("two dogs"[0]);
    assert "two dogs" == "two" + " " + "dogs";
    WordsOfPair("two", "dogs");
    var ws := Words("two dogs");
    assert ws == ["two", "dogs"];
    assert EndsWith(ws[1], "s") by {
      assert "dogs"[3..] == "s";
    }
    assert KeepsAsIs(ws);
  }

  /** The time-of-day nouns that mark a background prompt. */
  const BackgroundNouns: set<string> := {"night", "day", "evening", "morning"}

  /** `is_background_prompt`: exactly two words, an article then a
      time-of-day noun, both compared in lower case. */
  predicate IsBackgroundPrompt(text: string) {
    var words := Words(text);
    |words| == 2 && Lower(words[0]) in {"a", "the"} && Lower(words[1]) in BackgroundNouns
  }

  /** For a two-word phrase the test looks only at the two words. */
  lemma BackgroundPair(a: string, b: string)
    requires a != [] && NoSpace(a) && b != [] && NoSpace(b)
    ensures IsBackgroundPrompt(a + " " + b) <==>
      (Lower(a) == "a" || Lower(a) == "the") && Lower(b) in BackgroundNouns
  {
    WordsOfPair(a, b);
  }

  /** A single word or more than two words are never background. */
  lemma BackgroundNeedsTwoWords(text: string)
    requires |Words(text)| != 2
    ensures !IsBackgroundPrompt(text)
  {
  }

  lemma BackgroundANight()
    ensures IsBackgroundPrompt("a night")
  {
    assert "a night" == "a" + " " + "night";
    BackgroundPair("a", "night");
    assert Lower("a") == "a";
    assert Lower("night") == "night";
  }

  lemma BackgroundTheMorning()
    ensures IsBackgroundPrompt("The Morning")
  {
    assert "The Morning" == "The" + " " + "Morning";
    BackgroundPair("The", "Morning");
    assert Lower("The") == "the";
    assert Lower("Morning") == "morning";
  }

  lemma BackgroundADog()
    ensures !IsBackgroundPrompt("a dog")
  {
    assert "a dog" == "a" + " " + "dog";
    BackgroundPair("a", "dog");
    assert Lower("dog") == "dog";
    assert "dog"[1] != "day"[1];
  }

  lemma BackgroundALamp()
    ensures !IsBackgroundPrompt("a lamp")
  {
    assert "a lamp" == "a" + " " + "lamp";
    BackgroundPair("a", "lamp");
    assert |Lower("lamp")| == 4;
  }

  // ---------------------------------------------------------------------
  // decompose_prompt over a given parse

  /** A noun chunk: its text and the text of its root (head) token. */
  datatype NounChunk = NounChunk(text: string, root: string)

  /** A preposition attached to a noun, with a noun as its object. */
  datatype Relation = Relation(head: string, prep: string, target: string)

  /** The dedupe key: the stripped text in lower case. */
  function Key(c: NounChunk): string {
    Lower(Strip(c.text))
  }

  /** The keys of a list, for any key function. The dedupe lemmas below
      hold for every key function, so they are stated for one given as a
      parameter and used with `Key`. */
  function Keys<T>(cs: seq<T>, key: T -> string): (ks: set<string>)
    ensures forall k :: k in ks <==> exists j :: 0 <= j < |cs| && key(cs[j]) == k
  {
    set j | 0 <= j < |cs| :: key(cs[j])
  }

  /** The dedupe loop's result: entries in input order, skipping any whose
      key was seen before. */
  function Dedupe<T>(cs: seq<T>, key: T -> string): (r: seq<T>)
  {
    if cs == [] then []
    else
      var d := Dedupe(cs[..|cs| - 1], key);
      if key(cs[|cs| - 1]) in Keys(d, key) then d else d + [cs[|cs| - 1]]
  }

  /** Entry j is the first with its key. */
  predicate IsFirst<T>(cs: seq<T>, key: T -> string, j: int)
    requires 0 <= j < |cs|
  {
    forall j' :: 0 <= j' < j ==> key(cs[j']) != key(cs[j])
  }

  /** Reference definition: the entries that are first with their key, in
      order. */
  function FirstOccurrences<T>(cs: seq<T>, key: T -> string): seq<T>
  {
    if cs == [] then []
    else FirstOccurrences(cs[..|cs| - 1], key) + (if IsFirst(cs, key, |cs| - 1) then [cs[|cs| - 1]] else [])
  }

  /** Dedupe keeps every key of its input. */
  lemma {:induction false} DedupeKeys<T>(cs: seq<T>, key: T -> string)
    ensures Keys(Dedupe(cs, key), key) == Keys(cs, key)
    decreases |cs|
  {
    if cs != [] {
      var front, last := cs[..|cs| - 1], cs[|cs| - 1];
      DedupeKeys(front, key);
      var d := Dedupe(front, key);
      var e := Dedupe(cs, key);
      assert e == d || e == d + [last];
      forall k | k in Keys(cs, key) ensures k in Keys(e, key) {
        var j :| 0 <= j < |cs| && key(cs[j]) == k;
        if j < |cs| - 1 {
          assert key(front[j]) == k;
          assert k in Keys(front, key);
          assert k in Keys(d, key);
          var i :| 0 <= i < |d| && key(d[i]) == k;
          assert e[i] == d[i];
        } else if e == d + [last] {
          assert e[|d|] == last;
        }
      }
      forall k | k in Keys(e, key) ensures k in Keys(cs, key) {
        var i :| 0 <= i < |e| && key(e[i]) == k;
        if i < |d| {
          assert e[i] == d[i];
          assert k in Keys(front, key);
          var j :| 0 <= j < |front| && key(front[j]) == k;
          assert cs[j] == front[j];
        } else {
          assert key(cs[|cs| - 1]) == k;
        }
      }
    }
  }

  /** Dedupe keeps exactly the first occurrence of each key, in input
      order. */
  lemma {:induction false} DedupeIsFirstOccurrences<T>(cs: seq<T>, key: T -> string)
    ensures Dedupe(cs, key) == FirstOccurrences(cs, key)
    decreases |cs|
  {
    if cs != [] {
      var n := |cs|;
      var front, last := cs[..n - 1], cs[n - 1];
      DedupeIsFirstOccurrences(front, key);
      DedupeKeys(front, key);
      var d := Dedupe(front, key);
      assert FirstOccurrences(cs, key) == d + (if IsFirst(cs, key, n - 1) then [last] else []);
      if key(last) in Keys(front, key) {
        var j :| 0 <= j < |front| && key(front[j]) == key(last);
        assert key(cs[j]) == key(last);
        assert !IsFirst(cs, key, n - 1);
        assert Dedupe(cs, key) == d;
      } else {
        forall j' | 0 <= j' < n - 1 ensures key(cs[j']) != key(last) {
          assert key(front[j']) in Keys(front, key);
        }
        assert Dedupe(cs, key) == d + [last];
      }
    }
  }

  /** No two kept entries share a key. */
  lemma {:induction false} DedupeDistinct<T>(cs: seq<T>, key: T -> string)
    ensures forall i, j :: 0 <= i < j < |Dedupe(cs, key)| ==> key(Dedupe(cs, key)[i]) != key(Dedupe(cs, key)[j])
    decreases |cs|
  {
    if cs != [] {
      var front := cs[..|cs| - 1];
      DedupeDistinct(front, key);
      var d := Dedupe(front, key);
      var e := d + [cs[|cs| - 1]];
      if key(cs[|cs| - 1]) !in Keys(d, key) {
        forall i, j | 0 <= i < j < |e| ensures key(e[i]) != key(e[j]) {
          if j == |d| {
            assert key(d[i]) in Keys(d, key);
          }
        }
      }
    }
  }

  /** Every kept entry comes from the input. */
  lemma {:induction false} DedupeWithin<T>(cs: seq<T>, key: T -> string)
    ensures forall x :: x in Dedupe(cs, key) ==> x in cs
    decreases |cs|
  {
    if cs != [] {
      var front := cs[..|cs| - 1];
      DedupeWithin(front, key);
      forall x | x in Dedupe(front, key) ensures x in cs {
        var j :| 0 <= j < |front| && front[j] == x;
        assert cs[j] == x;
      }
    }
  }

  lemma KeysAppend<T>(cs: seq<T>, x: T, key: T -> string)
    ensures Keys(cs + [x], key) == Keys(cs, key) + {key(x)}
  {
    var e := cs + [x];
    forall k | k in Keys(cs, key) ensures k in Keys(e, key) {
      var j :| 0 <= j < |cs| && key(cs[j]) == k;
      assert e[j] == cs[j];
    }
    assert e[|cs|] == x;
  }

  /** Step 2 of `decompose_prompt`: the dedupe loop with its `seen` set,
      for the key function `key` (`Key` in `decompose_prompt`). */
  method DedupeBy<T>(cs: seq<T>, key: T -> string) returns (unique: seq<T>)
    ensures unique == Dedupe(cs, key)
  {
    var seen: set<string> := {};
    unique := [];
    for i := 0 to |cs|
      invariant unique == Dedupe(cs[..i], key)
      invariant seen == Keys(unique, key)
    {
      assert cs[..i + 1][..i] == cs[..i];
      var k := key(cs[i]);
      if k !in seen {
        KeysAppend(unique, cs[i], key);
        seen := seen + {k};
        unique := unique + [cs[i]];
      }
    }
    assert cs[..|cs|] == cs;
  }

  /** The prompt made from one kept chunk: its stripped text, or only its
      root word when modifiers are dropped. */
  function ChunkPrompt(c: NounChunk, keepModifiers: bool): (r: string)
    requires !AllSpace(c.text) && !AllSpace(c.root)
  {
    if keepModifiers then
      var text := Strip(c.text);
      assert text != [] && !IsSpace(text[0]);
      MakeIndependentPrompt(text)
    else MakeIndependentPrompt(c.root)
  }

  /** The relational prompt "<noun> <prep> <noun>", each noun made
      standalone. */
  function RelationPrompt(rel: Relation): (r: string)
    requires !AllSpace(rel.head) && !AllSpace(rel.target)
  {
    MakeIndependentPrompt(rel.head) + " " + rel.prep + " " + MakeIndependentPrompt(rel.target)
  }

  predicate ChunksWellFormed(chunks: seq<NounChunk>) {
    forall i :: 0 <= i < |chunks| ==> !AllSpace(chunks[i].text) && !AllSpace(chunks[i].root)
  }

  predicate RelationsWellFormed(rels: seq<Relation>) {
    forall i :: 0 <= i < |rels| ==> !AllSpace(rels[i].head) && !AllSpace(rels[i].target)
  }

  /** Step 3 as a function: one independent prompt per kept chunk. */
  function IndependentOf(unique: seq<NounChunk>, keepModifiers: bool): (r: seq<string>)
    requires ChunksWellFormed(unique)
    ensures |r| == |unique|
    ensures forall i :: 0 <= i < |unique| ==> r[i] == ChunkPrompt(unique[i], keepModifiers)
  {
    seq(|unique|, i requires 0 <= i < |unique| => ChunkPrompt(unique[i], keepModifiers))
  }

  /** Step 4 as a function: one relational prompt per triple. */
  function RelationsOf(rels: seq<Relation>): (r: seq<string>)
    requires RelationsWellFormed(rels)
    ensures |r| == |rels|
    ensures forall i :: 0 <= i < |rels| ==> r[i] == RelationPrompt(rels[i])
  {
    seq(|rels|, i requires 0 <= i < |rels| => RelationPrompt(rels[i]))
  }

  /** Step 3: the loop building one independent prompt per kept chunk. */
  method IndependentPrompts(unique: seq<NounChunk>, keepModifiers: bool) returns (independent: seq<string>)
    requires ChunksWellFormed(unique)
    ensures independent == IndependentOf(unique, keepModifiers)
  {
    independent := [];
    for i := 0 to |unique|
      invariant independent == IndependentOf(unique[..i], keepModifiers)
    {
      IndependentOfSnoc(unique, keepModifiers, i);
      independent := independent + [ChunkPrompt(unique[i], keepModifiers)];
    }
    assert unique[..|unique|] == unique;
  }

  /** One more chunk adds its prompt at the end. */
  lemma IndependentOfSnoc(unique: seq<NounChunk>, keepModifiers: bool, i: int)
    requires ChunksWellFormed(unique) && 0 <= i < |unique|
    ensures ChunksWellFormed(unique[..i]) && ChunksWellFormed(unique[..i + 1])
    ensures IndependentOf(unique[..i + 1], keepModifiers) ==
      IndependentOf(unique[..i], keepModifiers) + [ChunkPrompt(unique[i], keepModifiers)]
  {
    var a := IndependentOf(unique[..i + 1], keepModifiers);
    var b := IndependentOf(unique[..i], keepModifiers) + [ChunkPrompt(unique[i], keepModifiers)];
    assert |a| == |b|;
    forall j | 0 <= j < |a| ensures a[j] == b[j] {
      assert unique[..i + 1][j] == unique[j];
    }
  }

  /** Step 4: the loop building one relational prompt per triple. */
  method RelationPrompts(rels: seq<Relation>) returns (relations: seq<string>)
    requires RelationsWellFormed(rels)
    ensures relations == RelationsOf(rels)
  {
    relations := [];
    for i := 0 to |rels|
      invariant relations == RelationsOf(rels[..i])
    {
      RelationsOfSnoc(rels, i);
      relations := relations + [RelationPrompt(rels[i])];
    }
    assert rels[..|rels|] == rels;
  }

  /** One more triple adds its prompt at the end. */
  lemma RelationsOfSnoc(rels: seq<Relation>, i: int)
    requires RelationsWellFormed(rels) && 0 <= i < |rels|
    ensures RelationsWellFormed(rels[..i]) && RelationsWellFormed(rels[..i + 1])
    ensures RelationsOf(rels[..i + 1]) == RelationsOf(rels[..i]) + [RelationPrompt(rels[i])]
  {
    var a := RelationsOf(rels[..i + 1]);
    var b := RelationsOf(rels[..i]) + [RelationPrompt(rels[i])];
    assert |a| == |b|;
    forall j | 0 <= j < |a| ensures a[j] == b[j] {
      assert rels[..i + 1][j] == rels[j];
    }
  }

  /** Step 5 as a function: the independent prompts, then each relation
      not already present. */
  function Merge(independent: seq<string>, relations: seq<string>): (r: seq<string>)
    decreases |relations|
  {
    if relations == [] then independent
    else
      var m := Merge(independent, relations[..|relations| - 1]);
      if relations[|relations| - 1] in m then m else m + [relations[|relations| - 1]]
  }

  /** The merged list starts with every independent prompt in order, holds
      every relation, holds nothing else, and appends no prompt twice. */
  lemma {:induction false} MergeShape(independent: seq<string>, relations: seq<string>)
    ensures |Merge(independent, relations)| >= |independent|
    ensures Merge(independent, relations)[..|independent|] == independent
    ensures forall x :: x in Merge(independent, relations) <==> x in independent || x in relations
    ensures var m := Merge(independent, relations);
      forall i, j :: |independent| <= i < |m| && 0 <= j < |m| && i != j ==> m[i] != m[j]
    decreases |relations|
  {
    if relations != [] {
      var front := relations[..|relations| - 1];
      MergeShape(independent, front);
      var m := Merge(independent, front);
      var last := relations[|relations| - 1];
      assert forall x :: x in relations <==> x in front || x == last;
      if last !in m {
        assert (m + [last])[..|independent|] == m[..|independent|];
      }
    }
  }

  /** Step 5: the merge loop. */
  method MergePrompts(independent: seq<string>, relations: seq<string>) returns (all: seq<string>)
    ensures all == Merge(independent, relations)
  {
    all := independent;
    for i := 0 to |relations|
      invariant all == Merge(independent, relations[..i])
    {
      assert relations[..i + 1][..i] == relations[..i];
      if relations[i] !in all {
        all := all + [relations[i]];
      }
    }
    assert relations[..|relations|] == relations;
  }

  /** Step 6: drop background prompts unless they are wanted. */
  function FilterBackground(all: seq<string>, includeBackground: bool): (r: seq<string>)
    decreases |all|
  {
    if includeBackground || all == [] then all
    else
      var f := FilterBackground(all[..|all| - 1], false);
      if IsBackgroundPrompt(all[|all| - 1]) then f else f + [all[|all| - 1]]
  }

  /** The filter of one prompt: nothing if it is background, else itself. */
  lemma FilterSingle(x: string)
    ensures FilterBackground([x], false) == if IsBackgroundPrompt(x) then [] else [x]
  {
    assert [x][..0] == [];
  }

  /** Filtering a concatenation filters each part and keeps them in order;
      with `FilterSingle` this fixes the result entry by entry, so the kept
      prompts stay in the input's order and keep their multiplicity. */
  lemma {:induction false} FilterAppend(a: seq<string>, b: seq<string>)
    ensures FilterBackground(a + b, false) == FilterBackground(a, false) + FilterBackground(b, false)
    decreases |b|
  {
    if b == [] {
      assert a + b == a;
    } else {
      var front := b[..|b| - 1];
      var last := b[|b| - 1];
      FilterAppend(a, front);
      assert (a + b)[..|a + b| - 1] == a + front;
      assert (a + b)[|a + b| - 1] == last;
    }
  }

  /** Filtering keeps exactly the prompts that are not background, and the
      length drops by the number of background entries; the order is
      `FilterAppend`'s. */
  lemma {:induction false} FilterExact(all: seq<string>)
    ensures forall x :: x in FilterBackground(all, false) <==> x in all && !IsBackgroundPrompt(x)
    ensures |FilterBackground(all, false)| == |all| - CountBackground(all)
    decreases |all|
  {
    if all != [] {
      var front := all[..|all| - 1];
      FilterExact(front);
      assert forall x :: x in all <==> x in front || x == all[|all| - 1];
    }
  }

  /** The number of background prompts in a list. */
  function CountBackground(all: seq<string>): (n: nat)
    ensures n <= |all|
  {
    if all == [] then 0
    else CountBackground(all[..|all| - 1]) + (if IsBackgroundPrompt(all[|all| - 1]) then 1 else 0)
  }

  /** Step 6: the list comprehension that drops background prompts. */
  method FilterPrompts(all: seq<string>, includeBackground: bool) returns (filtered: seq<string>)
    ensures filtered == FilterBackground(all, includeBackground)
  {
    if !includeBackground {
      filtered := [];
      for i := 0 to |all|
        invariant filtered == FilterBackground(all[..i], false)
      {
        assert all[..i + 1][..i] == all[..i];
        if !IsBackgroundPrompt(all[i]) {
          filtered := filtered + [all[i]];
        }
      }
      assert all[..|all|] == all;
    } else {
      filtered := all;
    }
  }

  /** The kept chunks are chunks of the parse, so they hold words too. */
  lemma DedupeWellFormed(chunks: seq<NounChunk>)
    requires ChunksWellFormed(chunks)
    ensures ChunksWellFormed(Dedupe(chunks, Key))
  {
    var unique := Dedupe(chunks, Key);
    DedupeWithin(chunks, Key);
    forall i | 0 <= i < |unique| ensures !AllSpace(unique[i].text) && !AllSpace(unique[i].root) {
      assert unique[i] in chunks;
    }
  }

  /** `decompose_prompt` after parsing, as one function of the parse. */
  function Decomposition(chunks: seq<NounChunk>, rels: seq<Relation>, keepModifiers: bool,
                         includeBackground: bool): (r: seq<string>)
    requires ChunksWellFormed(chunks) && RelationsWellFormed(rels)
  {
    DedupeWellFormed(chunks);
    var independent := IndependentOf(Dedupe(chunks, Key), keepModifiers);
    FilterBackground(Merge(independent, RelationsOf(rels)), includeBackground)
  }

  /** `decompose_prompt`, step by step over the given parse. */
  method DecomposePrompt(chunks: seq<NounChunk>, rels: seq<Relation>, keepModifiers: bool,
                         includeBackground: bool)
    returns (filtered: seq<string>)
    requires ChunksWellFormed(chunks) && RelationsWellFormed(rels)
    ensures filtered == Decomposition(chunks, rels, keepModifiers, includeBackground)
  {
    var unique := DedupeBy(chunks, Key);
    DedupeWellFormed(chunks);
    var independent := IndependentPrompts(unique, keepModifiers);
    var relations := RelationPrompts(rels);
    var all := MergePrompts(independent, relations);
    filtered := FilterPrompts(all, includeBackground);
  }
}
