/** The Python string operations the scripts apply to words and letter lists:
    `str.isspace`, `str.upper`, `str.lower`, `str.strip` and `set(s)`.
    Case mapping is modelled for ASCII letters only; every other character is
    left unchanged by `Upper` and `Lower`. */
module Text {

  /** Python's `str.isspace` for one character: ASCII whitespace, the
      separators U+001C..U+001F, and the Unicode spaces and line breaks. */
  predicate IsSpace(c: char) {
    var n := c as int;
    n == 32 || 9 <= n <= 13 || 28 <= n <= 31 || n == 0x85 || n == 0xA0 || n == 0x1680
    || 0x2000 <= n <= 0x200A || n == 0x2028 || n == 0x2029 || n == 0x202F || n == 0x205F
    || n == 0x3000
  }

  predicate AllSpace(s: string) {
    forall i :: 0 <= i < |s| ==> IsSpace(s[i])
  }

  predicate IsLowerAscii(c: char) { 'a' <= c <= 'z' }

  predicate IsUpperAscii(c: char) { 'A' <= c <= 'Z' }

  function UpperChar(c: char): char {
    if IsLowerAscii(c) then (c as int - 'a' as int + 'A' as int) as char else c
  }

  function LowerChar(c: char): char {
    if IsUpperAscii(c) then (c as int - 'A' as int + 'a' as int) as char else c
  }

  lemma UpperCharIsNotLower(c: char)
    ensures !IsLowerAscii(UpperChar(c))
  {
  }

  lemma LowerCharIsNotUpper(c: char)
    ensures !IsUpperAscii(LowerChar(c))
  {
  }

  /** `s.upper()` */
  function Upper(s: string): string {
    seq(|s|, i requires 0 <= i < |s| => UpperChar(s[i]))
  }

  /** `s.lower()` */
  function Lower(s: string): string {
    seq(|s|, i requires 0 <= i < |s| => LowerChar(s[i]))
  }

  /** `set(s)`: the characters occurring in `s`. */
  function CharSet(s: string): set<char> {
    set c | c in s
  }

  /** `s.lstrip()` */
  function StripLeft(s: string): string
    decreases |s|
  {
    if |s| > 0 && IsSpace(s[0]) then StripLeft(s[1..]) else s
  }

  /** `lstrip` drops exactly the leading whitespace: it leaves a suffix of `s` that
      is empty or starts with a non-whitespace character, and everything before
      that suffix is whitespace. */
  lemma {:induction false} StripLeftSpec(s: string)
    ensures var r := StripLeft(s); |r| <= |s| && r == s[|s| - |r|..]
    ensures var r := StripLeft(s); forall i :: 0 <= i < |s| - |r| ==> IsSpace(s[i])
    ensures var r := StripLeft(s); |r| == 0 || !IsSpace(r[0])
    decreases |s|
  {
    if |s| > 0 && IsSpace(s[0]) {
      StripLeftSpec(s[1..]);
      var r := StripLeft(s);
      assert r == s[1..][|s| - 1 - |r|..];
      forall i | 0 <= i < |s| - |r|
        ensures IsSpace(s[i])
      {
        if i > 0 {
          assert s[i] == s[1..][i - 1];
        }
      }
    }
  }

  /** `s.rstrip()` */
  function StripRight(s: string): string
    decreases |s|
  {
    if |s| > 0 && IsSpace(s[|s| - 1]) then StripRight(s[..|s| - 1]) else s
  }

  /** `rstrip` drops exactly the trailing whitespace: it leaves a prefix of `s`
      that is empty or ends with a non-whitespace character, and everything after
      that prefix is whitespace. */
  lemma {:induction false} StripRightSpec(s: string)
    ensures var r := StripRight(s); |r| <= |s| && r == s[..|r|]
    ensures var r := StripRight(s); forall i :: |r| <= i < |s| ==> IsSpace(s[i])
    ensures var r := StripRight(s); |r| == 0 || !IsSpace(r[|r| - 1])
    decreases |s|
  {
    if |s| > 0 && IsSpace(s[|s| - 1]) {
      StripRightSpec(s[..|s| - 1]);
      var r := StripRight(s);
      assert r == s[..|s| - 1][..|r|];
      forall i | |r| <= i < |s|
        ensures IsSpace(s[i])
      {
        if i < |s| - 1 {
          assert s[i] == s[..|s| - 1][i];
        }
      }
    }
  }

  /** Position `i` of `s` survives `strip`: a non-whitespace character of `s` sits
      at or before it, and one at or after it. */
  predicate Kept(s: string, i: int) {
    0 <= i < |s|
    && (exists j :: 0 <= j <= i && !IsSpace(s[j]))
    && (exists k :: i <= k < |s| && !IsSpace(s[k]))
  }

  /** The number of leading whitespace characters of `s`. */
  function Lead(s: string): (n: nat)
    ensures n <= |s|
  {
    StripLeftSpec(s);
    |s| - |StripLeft(s)|
  }

  /** `s.strip()` */
  function Strip(s: string): string {
    StripRight(StripLeft(s))
  }

  /** `strip` leaves exactly the span of `s` from its first to its last
      non-whitespace character, starting after the leading whitespace. */
  lemma StripSpec(s: string)
    ensures Lead(s) + |Strip(s)| <= |s| && Strip(s) == s[Lead(s)..Lead(s) + |Strip(s)|]
    ensures forall i :: 0 <= i < |s| ==> (Kept(s, i) <==> Lead(s) <= i < Lead(s) + |Strip(s)|)
  {
    var l := StripLeft(s);
    StripLeftSpec(s);
    StripRightSpec(l);
    StripSpan(s, l, StripRight(l));
  }

  /** What `lstrip` and then `rstrip` promise, as plain facts about the positions of `s`. */
  lemma StripSpan(s: string, l: string, r: string)
    requires |l| <= |s| && l == s[|s| - |l|..]
    requires forall i :: 0 <= i < |s| - |l| ==> IsSpace(s[i])
    requires |l| == 0 || !IsSpace(l[0])
    requires |r| <= |l| && r == l[..|r|]
    requires forall i :: |r| <= i < |l| ==> IsSpace(l[i])
    requires |r| == 0 || !IsSpace(r[|r| - 1])
    ensures var a := |s| - |l|; a + |r| <= |s| && r == s[a..a + |r|]
    ensures var a := |s| - |l|; forall i :: 0 <= i < |s| ==> (Kept(s, i) <==> a <= i < a + |r|)
  {
    var a := |s| - |l|;
    SliceOfSlice(s, l, r, a);
    forall i | a + |r| <= i < |s|
      ensures IsSpace(s[i])
    {
      assert s[i] == l[i - a];
    }
    SpanKept(s, a, |r|);
  }

  lemma SliceOfSlice(s: string, l: string, r: string, a: nat)
    requires a <= |s| && l == s[a..] && |r| <= |l| && r == l[..|r|]
    ensures a + |r| <= |s| && r == s[a..a + |r|]
  {
  }

  /** The positions `strip` keeps are those of a span bounded by non-whitespace
      characters with only whitespace outside it. */
  lemma SpanKept(s: string, a: nat, n: nat)
    requires a + n <= |s|
    requires forall i :: 0 <= i < a ==> IsSpace(s[i])
    requires forall i :: a + n <= i < |s| ==> IsSpace(s[i])
    requires n == 0 || (!IsSpace(s[a]) && !IsSpace(s[a + n - 1]))
    ensures forall i :: 0 <= i < |s| ==> (Kept(s, i) <==> a <= i < a + n)
  {
    forall i | 0 <= i < |s|
      ensures Kept(s, i) <==> a <= i < a + n
    {
      if a <= i < a + n {
        assert 0 <= a <= i && !IsSpace(s[a]);
        assert i <= a + n - 1 < |s| && !IsSpace(s[a + n - 1]);
      }
      if Kept(s, i) {
        var j :| 0 <= j <= i && !IsSpace(s[j]);
        var k :| i <= k < |s| && !IsSpace(s[k]);
      }
    }
  }

  /** The characters of `s.strip()` are those at the positions `strip` keeps. */
  lemma StripChars(s: string)
    ensures forall c :: c in Strip(s) <==> exists i :: Kept(s, i) && s[i] == c
  {
    StripSpec(s);
    SpanChars(s, Lead(s), Strip(s));
  }

  lemma SpanChars(s: string, a: nat, r: string)
    requires a + |r| <= |s| && r == s[a..a + |r|]
    requires forall i :: 0 <= i < |s| ==> (Kept(s, i) <==> a <= i < a + |r|)
    ensures forall c :: c in r <==> exists i :: Kept(s, i) && s[i] == c
  {
    forall c
      ensures c in r <==> exists i :: Kept(s, i) && s[i] == c
    {
      if c in r {
        var m :| 0 <= m < |r| && r[m] == c;
        assert Kept(s, a + m) && s[a + m] == c;
      }
      if exists i :: Kept(s, i) && s[i] == c {
        var i :| Kept(s, i) && s[i] == c;
        assert r[i - a] == c;
      }
    }
  }

  /** Strings whose characters agree on being whitespace keep the same positions. */
  lemma KeptAlike(s: string, t: string)
    requires |s| == |t| && forall i :: 0 <= i < |s| ==> (IsSpace(s[i]) <==> IsSpace(t[i]))
    ensures forall i :: Kept(s, i) <==> Kept(t, i)
  {
    forall i
      ensures Kept(s, i) <==> Kept(t, i)
    {
      if Kept(s, i) {
        var j :| 0 <= j <= i && !IsSpace(s[j]);
        var k :| i <= k < |s| && !IsSpace(s[k]);
        assert !IsSpace(t[j]) && !IsSpace(t[k]);
      }
      if Kept(t, i) {
        var j :| 0 <= j <= i && !IsSpace(t[j]);
        var k :| i <= k < |t| && !IsSpace(t[k]);
        assert !IsSpace(s[j]) && !IsSpace(s[k]);
      }
    }
  }

  /** `c` is the upper-case form of a character that `strip` keeps in `s`. */
  predicate OccursUpper(s: string, c: char) {
    exists i :: 0 <= i < |s| && Kept(s, i) && UpperChar(s[i]) == c
  }

  /** `c` is the lower-case form of a character that `strip` keeps in `s`. */
  predicate OccursLower(s: string, c: char) {
    exists i :: 0 <= i < |s| && Kept(s, i) && LowerChar(s[i]) == c
  }

  /** `set(s.upper().strip())` */
  function UpperLetters(s: string): set<char> {
    CharSet(Strip(Upper(s)))
  }

  /** The letters of `s.upper().strip()` are the upper-cased characters that `strip`
      keeps in `s`; none of them is a lower-case letter. */
  lemma UpperLettersSpec(s: string)
    ensures forall c :: c in UpperLetters(s) <==> OccursUpper(s, c)
    ensures forall c :: c in UpperLetters(s) ==> !IsLowerAscii(c)
  {
    var u := Upper(s);
    KeptAlike(s, u);
    StripChars(u);
    forall c | c in CharSet(Strip(u))
      ensures OccursUpper(s, c) && !IsLowerAscii(c)
    {
      var i :| Kept(u, i) && u[i] == c;
      assert Kept(s, i) && UpperChar(s[i]) == c;
      UpperCharIsNotLower(s[i]);
    }
    forall c | OccursUpper(s, c)
      ensures c in CharSet(Strip(u))
    {
      var i :| Kept(s, i) && UpperChar(s[i]) == c;
      assert Kept(u, i) && u[i] == c;
    }
  }

  /** `set(s.lower().strip())` */
  function LowerLetters(s: string): set<char> {
    CharSet(Strip(Lower(s)))
  }

  /** The letters of `s.lower().strip()` are the lower-cased characters that `strip`
      keeps in `s`; none of them is an upper-case letter. */
  lemma LowerLettersSpec(s: string)
    ensures forall c :: c in LowerLetters(s) <==> OccursLower(s, c)
    ensures forall c :: c in LowerLetters(s) ==> !IsUpperAscii(c)
  {
    var l := Lower(s);
    KeptAlike(s, l);
    StripChars(l);
    forall c | c in CharSet(Strip(l))
      ensures OccursLower(s, c) && !IsUpperAscii(c)
    {
      var i :| Kept(l, i) && l[i] == c;
      assert Kept(s, i) && LowerChar(s[i]) == c;
      LowerCharIsNotUpper(s[i]);
    }
    forall c | OccursLower(s, c)
      ensures c in CharSet(Strip(l))
    {
      var i :| Kept(s, i) && LowerChar(s[i]) == c;
      assert Kept(l, i) && l[i] == c;
    }
  }

  lemma UpperIdempotent(s: string)
    ensures Upper(Upper(s)) == Upper(s)
  {
  }

  lemma UpperOfLower(s: string)
    ensures Upper(Lower(s)) == Upper(s)
  {
  }

  lemma LowerOfUpper(s: string)
    ensures Lower(Upper(s)) == Lower(s)
  {
  }

  /** Case mapping distributes over concatenation and leaves whitespace alone. */
  lemma LowerConcat(a: string, b: string)
    ensures Lower(a + b) == Lower(a) + Lower(b)
  {
  }

  lemma LowerOfSpace(s: string)
    requires AllSpace(s)
    ensures Lower(s) == s
  {
  }

  /** Whitespace in front of `s` does not change what `lstrip` leaves, once `s` has content. */
  lemma {:induction false} StripLeftConcat(a: string, b: string)
    ensures StripLeft(a + b) == if |StripLeft(a)| == 0 then StripLeft(b) else StripLeft(a) + b
    decreases |a|
  {
    if |a| > 0 {
      assert (a + b)[0] == a[0] && (a + b)[1..] == a[1..] + b;
      if IsSpace(a[0]) {
        StripLeftConcat(a[1..], b);
      }
    } else {
      assert a + b == b;
    }
  }

  lemma {:induction false} StripRightOfPadded(a: string, q: string)
    requires AllSpace(q)
    ensures StripRight(a + q) == StripRight(a)
    decreases |q|
  {
    if |q| > 0 {
      var t := a + q;
      assert t[..|t| - 1] == a + q[..|q| - 1];
      StripRightOfPadded(a, q[..|q| - 1]);
    } else {
      assert a + q == a;
    }
  }

  lemma StripLeftOfSpace(s: string)
    requires AllSpace(s)
    ensures StripLeft(s) == []
  {
  }

  /** `strip` turns a blank string into the empty string. */
  lemma StripOfSpace(s: string)
    requires AllSpace(s)
    ensures Strip(s) == []
  {
    StripLeftOfSpace(s);
  }

  /** Surrounding whitespace does not change what `strip` leaves. */
  lemma {:induction false} StripOfPadded(p: string, s: string, q: string)
    requires AllSpace(p) && AllSpace(q)
    ensures Strip(p + s + q) == Strip(s)
  {
    assert p + s + q == p + (s + q);
    StripLeftOfSpace(p);
    StripLeftConcat(p, s + q);
    assert StripLeft(p + s + q) == StripLeft(s + q);
    StripLeftConcat(s, q);
    if |StripLeft(s)| == 0 {
      StripLeftOfSpace(q);
      assert StripLeft(s + q) == [];
    } else {
      assert StripLeft(s + q) == StripLeft(s) + q;
      StripRightOfPadded(StripLeft(s), q);
    }
  }
}
