/** The monovocalic word filter: which vowels a word uses, whether it holds a
    forbidden letter, and how a word list is sorted into per-vowel buckets and
    counted. */
module Eunoia {
  import opened Wrappers
  import opened Seqs
  import opened Text

  const DefaultVowels: string := "AEIOU"
  const DefaultForbidden: string := "Y"

  /** The vowel letters and the forbidden letters, as `setup_vowels` returns them. */
  datatype VowelSets = VowelSets(vowels: set<char>, forbidden: set<char>)

  /** `setup_vowels` */
  function SetupVowels(vowels: string, forbidden: string): VowelSets {
    VowelSets(UpperLetters(vowels), UpperLetters(forbidden))
  }

  /** Each set `setup_vowels` returns holds exactly the upper-cased characters that
      `strip` keeps in its argument. */
  lemma SetupVowelsSpec(vowels: string, forbidden: string)
    ensures forall c :: c in SetupVowels(vowels, forbidden).vowels <==> OccursUpper(vowels, c)
    ensures forall c :: c in SetupVowels(vowels, forbidden).forbidden <==> OccursUpper(forbidden, c)
  {
    UpperLettersSpec(vowels);
    UpperLettersSpec(forbidden);
  }

  /** With no arguments, the vowels are A, E, I, O, U and the only forbidden letter is Y. */
  lemma DefaultSetup()
    ensures SetupVowels(DefaultVowels, DefaultForbidden) == VowelSets({'A', 'E', 'I', 'O', 'U'}, {'Y'})
  {
    var v := DefaultVowels;
    assert Upper(v) == v;
    assert StripLeft(v) == v;
    assert StripRight(v) == v;
    assert CharSet(v) == {'A', 'E', 'I', 'O', 'U'};
    var f := DefaultForbidden;
    assert Upper(f) == f;
    assert StripLeft(f) == f;
    assert StripRight(f) == f;
    assert CharSet(f) == {'Y'};
  }

  /** The first part of `analyze_word`'s answer: `None` when the word has no vowel,
      `False` when it has two or more distinct vowels, and otherwise the one vowel. */
  datatype VowelClass = NoVowel | Mixed | Single(vowel: char)

  /** `analyze_word`'s answer. `forbiddenFound` is the set of forbidden letters in
      the word; the source joins it into a string whose only use is whether it is
      empty. */
  datatype Analysis = Analysis(vowel: VowelClass, forbiddenFound: set<char>)

  /** `c` is one of the vowels of `sets` and occurs in `word`, ignoring case and
      the whitespace at the word's ends. */
  predicate UsesVowel(word: string, sets: VowelSets, c: char) {
    c in sets.vowels && OccursUpper(word, c)
  }

  /** `analyze_word`: classify the word by the vowels among its letters
      (`UpperLetters(word)`), and collect the forbidden letters among them. */
  function AnalyzeWord(word: string, sets: VowelSets): (a: Analysis)
    ensures a.vowel == NoVowel <==> forall c :: c in sets.vowels ==> c !in UpperLetters(word)
    ensures a.vowel == Mixed <==> exists c, d :: c != d && c in sets.vowels && c in UpperLetters(word)
                                                        && d in sets.vowels && d in UpperLetters(word)
    ensures a.vowel.Single? ==> sets.vowels * UpperLetters(word) == {a.vowel.vowel}
    ensures forall c :: c in a.forbiddenFound <==> c in sets.forbidden && c in UpperLetters(word)
  {
    var letters := UpperLetters(word);
    ClassifyIntersection(sets.vowels, letters);
    Analysis(Classify(sets.vowels * letters), letters * sets.forbidden)
  }

  lemma ClassifyIntersection(vowels: set<char>, letters: set<char>)
    ensures Classify(vowels * letters) == NoVowel <==> forall c :: c in vowels ==> c !in letters
    ensures Classify(vowels * letters) == Mixed <==>
      exists c, d :: c != d && c in vowels && c in letters && d in vowels && d in letters
  {
    var found := vowels * letters;
    if Classify(found) == Mixed {
      var c, d :| c != d && c in found && d in found;
      assert c in vowels && c in letters && d in vowels && d in letters;
    }
    if exists c, d :: c != d && c in vowels && c in letters && d in vowels && d in letters {
      var c, d :| c != d && c in vowels && c in letters && d in vowels && d in letters;
      assert c in found && d in found;
    }
    if found != {} {
      var c :| c in found;
      assert c in vowels && c in letters;
    } else {
      forall c | c in vowels
        ensures c !in letters
      {
        assert c !in found;
      }
    }
  }

  /** The vowel class of a word whose distinct vowels are `found`: the source joins
      them into a string and tests whether it is empty or longer than one. */
  function Classify(found: set<char>): (v: VowelClass)
    ensures v == NoVowel <==> found == {}
    ensures v == Mixed <==> exists c, d :: c != d && c in found && d in found
    ensures v.Single? ==> found == {v.vowel}
  {
    TwoDistinct(found);
    if |found| == 0 then NoVowel
    else if |found| > 1 then Mixed
    else
      OnlyElement(found);
      var v :| v in found;
      Single(v)
  }

  /** `analyze_word` in terms of the word itself: no vowel when none of the vowels
      occurs in it, mixed when two different ones do, otherwise the one that does;
      and the forbidden letters are those occurring in it. */
  lemma AnalyzeWordSpec(word: string, sets: VowelSets)
    ensures AnalyzeWord(word, sets).vowel == NoVowel <==> forall c :: c in sets.vowels ==> !OccursUpper(word, c)
    ensures AnalyzeWord(word, sets).vowel == Mixed <==>
      exists c, d :: c != d && UsesVowel(word, sets, c) && UsesVowel(word, sets, d)
    ensures AnalyzeWord(word, sets).vowel.Single? ==>
      var v := AnalyzeWord(word, sets).vowel.vowel;
      UsesVowel(word, sets, v) && forall c :: UsesVowel(word, sets, c) ==> c == v
    ensures forall c :: c in AnalyzeWord(word, sets).forbiddenFound <==> c in sets.forbidden && OccursUpper(word, c)
  {
    UpperLettersSpec(word);
    var a := AnalyzeWord(word, sets);
    var letters := UpperLetters(word);
    if a.vowel == Mixed {
      var c, d :| c != d && c in sets.vowels && c in letters && d in sets.vowels && d in letters;
      assert UsesVowel(word, sets, c) && UsesVowel(word, sets, d);
    }
    if exists c, d :: c != d && UsesVowel(word, sets, c) && UsesVowel(word, sets, d) {
      var c, d :| c != d && UsesVowel(word, sets, c) && UsesVowel(word, sets, d);
      assert c in letters && d in letters;
    }
    if a.vowel.Single? {
      var v := a.vowel.vowel;
      assert v in sets.vowels * letters;
      forall c | UsesVowel(word, sets, c)
        ensures c == v
      {
        assert c in sets.vowels * letters;
      }
    }
  }

  /** A set has two or more elements exactly when it holds two different values. */
  lemma TwoDistinct<T>(s: set<T>)
    ensures |s| > 1 <==> exists x, y :: x in s && y in s && x != y
  {
    if |s| > 1 {
      var x :| x in s;
      assert |s - {x}| > 0;
      var y :| y in s - {x};
      assert x in s && y in s && x != y;
    }
    if exists x, y :: x in s && y in s && x != y {
      var x, y :| x in s && y in s && x != y;
      assert {x, y} <= s;
      assert |{x, y}| == 2;
      SubsetSize({x, y}, s);
    }
  }

  lemma SubsetSize<T>(a: set<T>, b: set<T>)
    requires a <= b
    ensures |a| <= |b|
  {
    assert b == a + (b - a);
  }

  /** A one-element set holds a single value. */
  lemma OnlyElement<T>(s: set<T>)
    requires |s| == 1
    ensures forall x, y :: x in s && y in s ==> x == y
  {
    TwoDistinct(s);
  }

  /** `analyze_word` upper-cases the word first, so the case of its letters does not
      matter. */
  lemma AnalyzeWordIgnoresCase(word: string, sets: VowelSets)
    ensures AnalyzeWord(Upper(word), sets) == AnalyzeWord(word, sets)
    ensures AnalyzeWord(Lower(word), sets) == AnalyzeWord(word, sets)
  {
    UpperIdempotent(word);
    UpperOfLower(word);
  }

  /** The bucket key of a word that is not mixed: its vowel, or `None` without one. */
  function KeyOf(c: VowelClass): Option<char> {
    match c
    case Single(v) => Some(v)
    case _ => None
  }

  predicate IsMixed(sets: VowelSets, word: string) {
    AnalyzeWord(word, sets).vowel == Mixed
  }

  predicate HasForbidden(sets: VowelSets, word: string) {
    AnalyzeWord(word, sets).forbiddenFound != {}
  }

  /** `parse_dictionary` appends `word` to the list under `key`: in `filtered` when
      `removed`, in `word_list` otherwise. */
  predicate FiledUnder(sets: VowelSets, key: Option<char>, removed: bool, word: string) {
    !IsMixed(sets, word) && KeyOf(AnalyzeWord(word, sets).vowel) == key
    && HasForbidden(sets, word) == removed
  }

  function Filed(sets: VowelSets, key: Option<char>, removed: bool): string -> bool {
    w => FiledUnder(sets, key, removed, w)
  }

  function MixedWords(sets: VowelSets): string -> bool {
    w => IsMixed(sets, w)
  }

  function RemovedWords(sets: VowelSets): string -> bool {
    w => !IsMixed(sets, w) && HasForbidden(sets, w)
  }

  function PureWords(sets: VowelSets): string -> bool {
    w => !IsMixed(sets, w) && !HasForbidden(sets, w)
  }

  /** A word without any vowel is monovocalic for the counters and is filed under `None`. */
  lemma VowellessWordGoesUnderNone(sets: VowelSets, word: string)
    requires forall c :: c in sets.vowels ==> !OccursUpper(word, c)
    ensures !IsMixed(sets, word)
    ensures FiledUnder(sets, None, exists c :: c in sets.forbidden && OccursUpper(word, c), word)
  {
    AnalyzeWordSpec(word, sets);
    var a := AnalyzeWord(word, sets);
    if exists c :: c in sets.forbidden && OccursUpper(word, c) {
      var c :| c in sets.forbidden && OccursUpper(word, c);
      assert c in a.forbiddenFound;
    }
  }

  /** A word using exactly one vowel `v` is filed under `v`, and under no other key. */
  lemma SingleVowelWordGoesUnderIt(sets: VowelSets, word: string, v: char, removed: bool, key: Option<char>)
    requires UsesVowel(word, sets, v) && forall c :: UsesVowel(word, sets, c) ==> c == v
    ensures !IsMixed(sets, word)
    ensures FiledUnder(sets, key, removed, word) <==> key == Some(v) && removed == HasForbidden(sets, word)
  {
    AnalyzeWordSpec(word, sets);
  }

  /** Every word is mixed, removed or pure, and exactly one of them. */
  lemma {:induction false} CountsPartition(ws: seq<string>, sets: VowelSets)
    ensures |Filter(ws, MixedWords(sets))| + |Filter(ws, RemovedWords(sets))|
            + |Filter(ws, PureWords(sets))| == |ws|
    decreases |ws|
  {
    if |ws| > 0 {
      CountsPartition(ws[1..], sets);
    }
  }

  /** The counters of `parse_dictionary`; `mixed` is the source's "N/A" entry. */
  datatype Stats = Stats(total: nat, mixed: nat, monovocalic: nat, removed: nat, pure: nat)

  /** Lists of words by vowel key, as the source's `defaultdict(list)`: a key is
      present only once something was appended under it. */
  type Buckets = map<Option<char>, seq<string>>

  /** `m[key]` of a `defaultdict(list)`: an absent key reads as the empty list. */
  function Bucket(m: Buckets, key: Option<char>): seq<string> {
    if key in m then m[key] else []
  }

  /** Each word of `words` stripped of surrounding whitespace. */
  function Stripped(words: seq<string>): (r: seq<string>)
    ensures |r| == |words|
  {
    seq(|words|, i requires 0 <= i < |words| => Strip(words[i]))
  }

  lemma StrippedSnoc(words: seq<string>, i: nat)
    requires i < |words|
    ensures Stripped(words[..i + 1]) == Stripped(words[..i]) + [Strip(words[i])]
  {
    assert words[..i + 1] == words[..i] + [words[i]];
  }

  /** Table `m` holds, under every key, the words of `ws` filed under that key, in
      their order in `ws`, and no key with an empty list. */
  ghost predicate BucketsHold(m: Buckets, ws: seq<string>, sets: VowelSets, removed: bool) {
    (forall key :: Bucket(m, key) == Filter(ws, Filed(sets, key, removed)))
    && (forall key :: key in m ==> m[key] != [])
  }

  /** Where a word of the list ends up: a mixed-vowel word is in no list, and any
      other word is in exactly one, under its vowel key (`None` without a vowel),
      in `filtered` when it holds a forbidden letter and in `word_list` otherwise. */
  lemma WordPlacement(wordList: Buckets, filtered: Buckets, ws: seq<string>, sets: VowelSets, w: string)
    requires BucketsHold(wordList, ws, sets, false) && BucketsHold(filtered, ws, sets, true)
    requires w in ws
    ensures forall key :: w in Bucket(wordList, key) <==>
      !IsMixed(sets, w) && !HasForbidden(sets, w) && key == KeyOf(AnalyzeWord(w, sets).vowel)
    ensures forall key :: w in Bucket(filtered, key) <==>
      !IsMixed(sets, w) && HasForbidden(sets, w) && key == KeyOf(AnalyzeWord(w, sets).vowel)
  {
    forall key
      ensures w in Bucket(wordList, key) <==> FiledUnder(sets, key, false, w)
      ensures w in Bucket(filtered, key) <==> FiledUnder(sets, key, true, w)
    {
      FilterMembers(ws, Filed(sets, key, false));
      FilterMembers(ws, Filed(sets, key, true));
    }
  }

  lemma AppendStep(m: Buckets, ws: seq<string>, w: string, sets: VowelSets, removed: bool, key: Option<char>)
    requires BucketsHold(m, ws, sets, removed)
    requires FiledUnder(sets, key, removed, w)
    ensures BucketsHold(m[key := Bucket(m, key) + [w]], ws + [w], sets, removed)
  {
    var m' := m[key := Bucket(m, key) + [w]];
    forall k
      ensures Bucket(m', k) == Filter(ws + [w], Filed(sets, k, removed))
    {
      AppendStepAt(m, ws, w, sets, removed, key, k);
    }
  }

  lemma AppendStepAt(m: Buckets, ws: seq<string>, w: string, sets: VowelSets, removed: bool, key: Option<char>, k: Option<char>)
    requires Bucket(m, k) == Filter(ws, Filed(sets, k, removed))
    requires FiledUnder(sets, key, removed, w)
    ensures Bucket(m[key := Bucket(m, key) + [w]], k) == Filter(ws + [w], Filed(sets, k, removed))
  {
    FilterSnoc(ws, w, Filed(sets, k, removed));
    if k != key {
      assert !FiledUnder(sets, k, removed, w);
    }
  }

  lemma SkipStep(m: Buckets, ws: seq<string>, w: string, sets: VowelSets, removed: bool)
    requires BucketsHold(m, ws, sets, removed)
    requires forall key :: !FiledUnder(sets, key, removed, w)
    ensures BucketsHold(m, ws + [w], sets, removed)
  {
    forall k
      ensures Bucket(m, k) == Filter(ws + [w], Filed(sets, k, removed))
    {
      FilterSnoc(ws, w, Filed(sets, k, removed));
    }
  }

  /** The two dictionaries and the counters `parse_dictionary` builds. */
  datatype Tables = Tables(wordList: Buckets, filtered: Buckets, stats: Stats)

  /** One pass of the loop of `parse_dictionary` over an already stripped `word`:
      count it; skip it when its vowels are mixed; otherwise count it as
      monovocalic and append it under its key, to `filtered` when it holds a
      forbidden letter and to `word_list` otherwise. */
  function Step(t: Tables, sets: VowelSets, word: string): Tables {
    var a := AnalyzeWord(word, sets);
    var counted := t.stats.(total := t.stats.total + 1);
    if a.vowel == Mixed then
      t.(stats := counted.(mixed := counted.mixed + 1))
    else
      var mono := counted.(monovocalic := counted.monovocalic + 1);
      var key := KeyOf(a.vowel);
      if a.forbiddenFound != {} then
        Tables(t.wordList, t.filtered[key := Bucket(t.filtered, key) + [word]], mono.(removed := mono.removed + 1))
      else
        Tables(t.wordList[key := Bucket(t.wordList, key) + [word]], t.filtered, mono.(pure := mono.pure + 1))
  }

  /** `t` is what the loop builds from the stripped words `ws`: the counters add
      up, each counts the words of its kind, and each table lists, under every
      key, the words filed there, in input order. */
  ghost predicate Summarizes(t: Tables, ws: seq<string>, sets: VowelSets) {
    && t.stats.total == |ws|
    && t.stats.mixed + t.stats.monovocalic == t.stats.total
    && t.stats.removed + t.stats.pure == t.stats.monovocalic
    && t.stats.mixed == |Filter(ws, MixedWords(sets))|
    && t.stats.removed == |Filter(ws, RemovedWords(sets))|
    && t.stats.pure == |Filter(ws, PureWords(sets))|
    && BucketsHold(t.wordList, ws, sets, false)
    && BucketsHold(t.filtered, ws, sets, true)
  }

  /** One more word keeps the tables a summary of the longer word list. */
  lemma StepPreserves(t: Tables, ws: seq<string>, w: string, sets: VowelSets)
    requires Summarizes(t, ws, sets)
    ensures Summarizes(Step(t, sets, w), ws + [w], sets)
  {
    FilterSnoc(ws, w, MixedWords(sets));
    FilterSnoc(ws, w, RemovedWords(sets));
    FilterSnoc(ws, w, PureWords(sets));
    var a := AnalyzeWord(w, sets);
    if a.vowel == Mixed {
      SkipStep(t.wordList, ws, w, sets, false);
      SkipStep(t.filtered, ws, w, sets, true);
    } else if a.forbiddenFound != {} {
      AppendStep(t.filtered, ws, w, sets, true, KeyOf(a.vowel));
      SkipStep(t.wordList, ws, w, sets, false);
    } else {
      AppendStep(t.wordList, ws, w, sets, false, KeyOf(a.vowel));
      SkipStep(t.filtered, ws, w, sets, true);
    }
  }

  /** The classification and counting loop of `parse_dictionary` over the lines
      `dic`: every stripped word is counted, mixed-vowel words are skipped, and the
      others are appended under their vowel key to `filtered` when they hold a
      forbidden letter and to `word_list` otherwise. */
  method ParseDictionary(dic: seq<string>, vowels: string, forbidden: string)
    returns (wordList: Buckets, filtered: Buckets, stats: Stats)
    ensures stats.total == |dic|
    ensures stats.mixed + stats.monovocalic == stats.total
    ensures stats.removed + stats.pure == stats.monovocalic
    ensures stats.mixed == |Filter(Stripped(dic), MixedWords(SetupVowels(vowels, forbidden)))|
    ensures stats.removed == |Filter(Stripped(dic), RemovedWords(SetupVowels(vowels, forbidden)))|
    ensures stats.pure == |Filter(Stripped(dic), PureWords(SetupVowels(vowels, forbidden)))|
    ensures BucketsHold(wordList, Stripped(dic), SetupVowels(vowels, forbidden), false)
    ensures BucketsHold(filtered, Stripped(dic), SetupVowels(vowels, forbidden), true)
  {
    var sets := SetupVowels(vowels, forbidden);
    var t := Tables(map[], map[], Stats(0, 0, 0, 0, 0));
    var i := 0;
    while i < |dic|
      invariant 0 <= i <= |dic|
      invariant Summarizes(t, Stripped(dic[..i]), sets)
    {
      var word := Strip(dic[i]);
      StrippedSnoc(dic, i);
      StepPreserves(t, Stripped(dic[..i]), word, sets);
      t := Step(t, sets, word);
      i := i + 1;
    }
    assert dic[..i] == dic;
    wordList, filtered, stats := t.wordList, t.filtered, t.stats;
  }
}
