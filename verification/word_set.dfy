/** Letter-subset word matching: the dictionary `load_words` builds from the lines
    of a word list, and the words `match_words` picks because all their letters
    are allowed. */
module WordSet {
  import opened Seqs
  import opened Text

  /** A Python `dict[str, set]`: its keys in insertion order, and the entry of each key. */
  datatype Dictionary = Dictionary(keys: seq<string>, entries: map<string, set<char>>)

  /** What every Python dict satisfies: no key is listed twice, and the keys listed
      are exactly those with an entry. */
  ghost predicate Valid(d: Dictionary) {
    Distinct(d.keys) && forall w :: w in d.entries <==> w in d.keys
  }

  /** `w.lower().strip()` */
  function NormalizeLine(line: string): string {
    Strip(Lower(line))
  }

  /** The key each line of the word list becomes. */
  function Normalized(lines: seq<string>): (r: seq<string>)
    ensures |r| == |lines|
  {
    seq(|lines|, i requires 0 <= i < |lines| => NormalizeLine(lines[i]))
  }

  lemma NormalizedSnoc(lines: seq<string>)
    requires |lines| > 0
    ensures Normalized(lines) == Normalized(lines[..|lines| - 1]) + [NormalizeLine(lines[|lines| - 1])]
  {
  }

  /** The loop of `load_words` over the lines of the file: `words[w] = set(w)` for
      each normalized line `w`. Assigning to a key that is already present keeps
      its position. */
  function LoadWords(lines: seq<string>): (d: Dictionary)
    ensures Valid(d)
    ensures forall w :: w in d.entries <==> w in Normalized(lines)
    ensures forall w :: w in d.entries ==> d.entries[w] == CharSet(w)
    decreases |lines|
  {
    if |lines| == 0 then Dictionary([], map[])
    else
      var d := LoadWords(lines[..|lines| - 1]);
      var w := NormalizeLine(lines[|lines| - 1]);
      NormalizedSnoc(lines);
      var keys := if w in d.entries then d.keys else d.keys + [w];
      assert Distinct(keys);
      Dictionary(keys, d.entries[w := CharSet(w)])
  }

  /** The position of the first occurrence of `x` in `s`. */
  function FirstIndex<T(==)>(s: seq<T>, x: T): (k: nat)
    requires x in s
    ensures k < |s| && s[k] == x
    ensures forall j :: 0 <= j < k ==> s[j] != x
  {
    if s[0] == x then 0 else 1 + FirstIndex(s[1..], x)
  }

  /** `FirstIndex` is the position of `x` that no earlier copy precedes. */
  lemma {:induction false} FirstIndexIs<T>(s: seq<T>, x: T, k: nat)
    requires k < |s| && s[k] == x
    requires forall j :: 0 <= j < k ==> s[j] != x
    ensures FirstIndex(s, x) == k
  {
    if k > 0 {
      FirstIndexIs(s[1..], x, k - 1);
    }
  }

  lemma FirstIndexOfPrefix<T>(s: seq<T>, n: nat, x: T)
    requires n <= |s| && x in s[..n]
    ensures x in s && FirstIndex(s, x) == FirstIndex(s[..n], x)
  {
    var k := FirstIndex(s[..n], x);
    assert s[k] == x;
    forall j | 0 <= j < k
      ensures s[j] != x
    {
      assert s[j] == s[..n][j];
    }
    FirstIndexIs(s, x, k);
  }

  /** The keys of a loaded dictionary come in the order of the line where each
      first appears, so a repeated line keeps the position of its first copy. */
  lemma {:induction false} LoadWordsOrder(lines: seq<string>)
    ensures forall i, j :: 0 <= i < j < |LoadWords(lines).keys| ==>
      FirstIndex(Normalized(lines), LoadWords(lines).keys[i]) < FirstIndex(Normalized(lines), LoadWords(lines).keys[j])
    decreases |lines|
  {
    if |lines| > 0 {
      var prefix := lines[..|lines| - 1];
      LoadWordsOrder(prefix);
      var n := Normalized(lines);
      var d0 := LoadWords(prefix);
      var keys := LoadWords(lines).keys;
      NormalizedSnoc(lines);
      assert n[..|n| - 1] == Normalized(prefix);
      forall x | x in d0.keys
        ensures x in n && FirstIndex(n, x) == FirstIndex(Normalized(prefix), x)
      {
        FirstIndexOfPrefix(n, |n| - 1, x);
      }
      forall i, j | 0 <= i < j < |keys|
        ensures FirstIndex(n, keys[i]) < FirstIndex(n, keys[j])
      {
        if j < |d0.keys| {
          assert keys[i] == d0.keys[i] && keys[j] == d0.keys[j];
        } else {
          var w := n[|n| - 1];
          assert keys[j] == w && w !in Normalized(prefix);
          assert keys[i] == d0.keys[i];
          assert FirstIndex(n, w) == |n| - 1;
        }
      }
    }
  }

  /** `word` is a key whose letters all lie within `allowed`. */
  function Fits(d: Dictionary, allowed: set<char>): string -> bool {
    word => word in d.entries && d.entries[word] <= allowed
  }

  /** `match_words`: the keys, in dictionary order, whose letter sets lie within
      the letters of `allowed_letters.lower().strip()`; none is listed twice. */
  function MatchWords(allowedLetters: string, d: Dictionary): (r: seq<string>)
    requires Valid(d)
    ensures IsSubsequence(r, d.keys) && Distinct(r)
    ensures forall w :: w in r <==> w in d.entries && d.entries[w] <= LowerLetters(allowedLetters)
  {
    var fits := Fits(d, LowerLetters(allowedLetters));
    var r := Filter(d.keys, fits);
    SubsequenceOfDistinct(r, d.keys);
    FilterMembers(d.keys, fits);
    r
  }

  /** More allowed letters never drop a match, and the matches keep their order. */
  lemma MatchWordsMonotone(narrow: string, wide: string, d: Dictionary)
    requires Valid(d) && LowerLetters(narrow) <= LowerLetters(wide)
    ensures IsSubsequence(MatchWords(narrow, d), MatchWords(wide, d))
  {
    FilterStrongerIsSubsequence(d.keys, Fits(d, LowerLetters(narrow)), Fits(d, LowerLetters(wide)));
  }

  /** Appending characters to the allowed letters only adds letters: every
      character `strip` kept before is still kept. */
  lemma AppendingAllowsMore(allowedLetters: string, extra: string)
    ensures LowerLetters(allowedLetters) <= LowerLetters(allowedLetters + extra)
  {
    var t := allowedLetters + extra;
    LowerLettersSpec(allowedLetters);
    LowerLettersSpec(t);
    forall c | c in LowerLetters(allowedLetters)
      ensures c in LowerLetters(t)
    {
      var i :| 0 <= i < |allowedLetters| && Kept(allowedLetters, i) && LowerChar(allowedLetters[i]) == c;
      var j :| 0 <= j <= i && !IsSpace(allowedLetters[j]);
      var k :| i <= k < |allowedLetters| && !IsSpace(allowedLetters[k]);
      assert t[i] == allowedLetters[i] && t[j] == allowedLetters[j] && t[k] == allowedLetters[k];
      assert Kept(t, i);
    }
  }

  /** Upper-casing the allowed letters and padding them with whitespace changes nothing. */
  lemma MatchWordsIgnoresCaseAndPadding(allowedLetters: string, p: string, q: string, d: Dictionary)
    requires Valid(d) && AllSpace(p) && AllSpace(q)
    ensures MatchWords(p + Upper(allowedLetters) + q, d) == MatchWords(allowedLetters, d)
  {
    var u := Upper(allowedLetters);
    LowerConcat(p, u);
    LowerConcat(p + u, q);
    LowerOfSpace(p);
    LowerOfSpace(q);
    LowerOfUpper(allowedLetters);
    assert Lower(p + u + q) == p + Lower(allowedLetters) + q;
    StripOfPadded(p, Lower(allowedLetters), q);
  }

  /** A blank line loads as the key "", whose empty letter set every allowed string covers. */
  lemma BlankLineAlwaysMatches(lines: seq<string>, i: nat, allowedLetters: string)
    requires i < |lines| && AllSpace(lines[i])
    ensures "" in MatchWords(allowedLetters, LoadWords(lines))
  {
    LowerOfSpace(lines[i]);
    StripOfSpace(lines[i]);
    assert Normalized(lines)[i] == "";
    assert CharSet("") == {};
  }
}
