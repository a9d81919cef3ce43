/** The Python string operations the scripts rely on: `in` on strings,
    string comparison (code-point lexicographic order), `sorted(set(...))`,
    `str.replace` and `str.title`. */
module Text {

  import opened Wrappers

  /** `p in s`: `p` occurs in `s` as a contiguous substring. */
  predicate Contains(s: string, p: string)
    decreases |s|
  {
    p <= s || (s != [] && Contains(s[1..], p))
  }

  /** `p` occurs in `s` starting at position `i`. */
  predicate OccursAt(s: string, p: string, i: int) {
    0 <= i <= |s| - |p| && s[i..i + |p|] == p
  }

  /** `Contains` agrees with the positional definition of a substring. */
  lemma {:induction false} ContainsAt(s: string, p: string)
    ensures Contains(s, p) <==> exists i :: OccursAt(s, p, i)
    decreases |s|
  {
    if p <= s {
      assert OccursAt(s, p, 0);
    } else if s == [] {
    } else {
      ContainsAt(s[1..], p);
      if Contains(s[1..], p) {
        var i :| OccursAt(s[1..], p, i);
        assert s[i + 1..i + 1 + |p|] == s[1..][i..i + |p|];
        assert OccursAt(s, p, i + 1);
      }
      if exists i :: OccursAt(s, p, i) {
        var i :| OccursAt(s, p, i);
        assert s[1..][i - 1..i - 1 + |p|] == s[i..i + |p|];
        assert OccursAt(s[1..], p, i - 1);
      }
    }
  }

  /** The first of `pats` that occurs in `s`, by position: a loop over the
      patterns that stops at the first `p in s`. */
  function FirstContained(pats: seq<string>, s: string): (r: Option<nat>)
    ensures r.None? <==> forall j :: 0 <= j < |pats| ==> !Contains(s, pats[j])
    ensures r.Some? ==> r.value < |pats| && Contains(s, pats[r.value]) &&
                        forall j :: 0 <= j < r.value ==> !Contains(s, pats[j])
    decreases |pats|
  {
    if pats == [] then None
    else if Contains(s, pats[0]) then Some(0)
    else
      match FirstContained(pats[1..], s)
      case None => None
      case Some(k) => Some(k + 1)
  }

  /** Python's `a < b` on strings: lexicographic by code point, a proper
      prefix sorts first. */
  predicate LexLess(a: string, b: string)
    decreases |a|
  {
    if a == [] then b != []
    else if b == [] then false
    else if a[0] != b[0] then a[0] < b[0]
    else LexLess(a[1..], b[1..])
  }

  lemma {:induction false} LexLessIrreflexive(a: string)
    ensures !LexLess(a, a)
    decreases |a|
  {
    if a != [] {
      LexLessIrreflexive(a[1..]);
    }
  }

  lemma {:induction false} LexLessTransitive(a: string, b: string, c: string)
    requires LexLess(a, b) && LexLess(b, c)
    ensures LexLess(a, c)
    decreases |a|
  {
    if a != [] && b != [] && c != [] && a[0] == b[0] && b[0] == c[0] {
      LexLessTransitive(a[1..], b[1..], c[1..]);
    }
  }

  lemma {:induction false} LexLessTotal(a: string, b: string)
    requires a != b
    ensures LexLess(a, b) || LexLess(b, a)
    decreases |a|
  {
    if a != [] && b != [] && a[0] == b[0] {
      assert a == [a[0]] + a[1..] && b == [b[0]] + b[1..];
      LexLessTotal(a[1..], b[1..]);
    }
  }

  lemma {:induction false} LexLessAsymmetric(a: string, b: string)
    requires LexLess(a, b)
    ensures !LexLess(b, a)
  {
    if LexLess(b, a) {
      LexLessTransitive(a, b, a);
      LexLessIrreflexive(a);
    }
  }

  /** Comparing two strings whose first parts have the same length compares
      the first parts, and the second parts only on a tie. */
  lemma {:induction false} LexLessConcat(x: string, y: string, x': string, y': string)
    requires |x| == |x'|
    ensures LexLess(x + y, x' + y') <==> LexLess(x, x') || (x == x' && LexLess(y, y'))
    decreases |x|
  {
    if x == [] {
      assert x + y == y && x' + y' == y';
    } else {
      assert (x + y)[0] == x[0] && (x' + y')[0] == x'[0];
      assert (x + y)[1..] == x[1..] + y && (x' + y')[1..] == x'[1..] + y';
      LexLessConcat(x[1..], y, x'[1..], y');
      if x[0] == x'[0] {
        assert x == x' <==> x[1..] == x'[1..] by {
          assert x == [x[0]] + x[1..] && x' == [x'[0]] + x'[1..];
        }
      } else {
        assert x != x';
      }
    }
  }

  /** Sorted by Python's string order and therefore free of duplicates. */
  predicate StrictlyAscending(s: seq<string>) {
    forall i, j :: 0 <= i < j < |s| ==> LexLess(s[i], s[j])
  }

  function InsertUnique(x: string, s: seq<string>): (r: seq<string>)
    requires StrictlyAscending(s)
    ensures StrictlyAscending(r)
    ensures forall y :: y in r <==> y == x || y in s
    decreases |s|
  {
    if s == [] then [x]
    else if x == s[0] then s
    else if LexLess(x, s[0]) then
      assert forall k :: 0 < k < |s| ==> LexLess(x, s[k]) by {
        forall k | 0 < k < |s| ensures LexLess(x, s[k]) {
          LexLessTransitive(x, s[0], s[k]);
        }
      }
      [x] + s
    else
      LexLessTotal(x, s[0]);
      var rest := InsertUnique(x, s[1..]);
      assert forall y :: y in s[1..] ==> LexLess(s[0], y);
      [s[0]] + rest
  }

  /** Python's `sorted(set(s))`: the distinct elements of `s` in ascending
      string order. */
  function SortedUnique(s: seq<string>): (r: seq<string>)
    ensures StrictlyAscending(r)
    ensures forall y :: y in r <==> y in s
    decreases |s|
  {
    if s == [] then [] else InsertUnique(s[0], SortedUnique(s[1..]))
  }

  /** A strictly ascending sequence is determined by its elements, so
      `SortedUnique` is the only possible sorted, duplicate-free listing. */
  lemma {:induction false} StrictlyAscendingUnique(a: seq<string>, b: seq<string>)
    requires StrictlyAscending(a) && StrictlyAscending(b)
    requires forall y :: y in a <==> y in b
    ensures a == b
    decreases |a|
  {
    if a != [] && b != [] {
      assert a[0] in a && b[0] in b;
      if a[0] != b[0] {
        LexLessTotal(a[0], b[0]);
        if LexLess(a[0], b[0]) {
          // a[0] is in b, but nothing in b is below b[0]
          var k :| 0 <= k < |b| && b[k] == a[0];
          if k != 0 { LexLessAsymmetric(b[0], b[k]); }
        }
      }
      forall y
        ensures y in a[1..] <==> y in b[1..]
      {
        if y in a[1..] {
          var k :| 0 <= k < |a[1..]| && a[1..][k] == y;
          assert LexLess(a[0], a[k + 1]);
          if y == b[0] { LexLessIrreflexive(y); }
          assert y in b;
        }
        if y in b[1..] {
          var k :| 0 <= k < |b[1..]| && b[1..][k] == y;
          assert LexLess(b[0], b[k + 1]);
          if y == a[0] { LexLessIrreflexive(y); }
          assert y in a;
        }
      }
      StrictlyAscendingUnique(a[1..], b[1..]);
      assert a == [a[0]] + a[1..] && b == [b[0]] + b[1..];
    } else if a != [] {
      HasMember(a);
      assert false;
    } else if b != [] {
      HasMember(b);
      assert false;
    }
  }

  lemma {:induction false} HasMember(a: seq<string>)
    requires a != []
    ensures exists y :: y in a
  {
    assert a[0] in a;
  }

  /** Python's `s.replace(pat, by)`: every non-overlapping occurrence of
      `pat`, scanning from the left, is replaced. */
  function ReplaceAll(s: string, pat: string, rep: string): (r: string)
    requires pat != []
    ensures |rep| <= |pat| ==> |r| <= |s|
    ensures |rep| == |pat| ==> |r| == |s|
    decreases |s|
  {
    if pat <= s then rep + ReplaceAll(s[|pat|..], pat, rep)
    else if s == [] then []
    else [s[0]] + ReplaceAll(s[1..], pat, rep)
  }

  /** Replacing something that does not occur changes nothing. */
  lemma {:induction false} ReplaceAbsent(s: string, pat: string, rep: string)
    requires pat != []
    requires !Contains(s, pat)
    ensures ReplaceAll(s, pat, rep) == s
    decreases |s|
  {
    if s != [] {
      ReplaceAbsent(s[1..], pat, rep);
      assert s == [s[0]] + s[1..];
    }
  }

  /** A string whose first character is not in `s` does not occur in `s`. */
  lemma {:induction false} AbsentByFirst(s: string, p: string)
    requires p != [] && p[0] !in s
    ensures !Contains(s, p)
    decreases |s|
  {
    if s != [] {
      assert s[0] != p[0];
      AbsentByFirst(s[1..], p);
    }
  }

  /** Gluing two strings without `p` cannot create `p` when the second
      starts with a character `p` lacks. */
  lemma {:induction false} AbsentAcross(x: string, y: string, p: string)
    requires y != [] && y[0] !in p
    requires !Contains(x, p) && !Contains(y, p)
    ensures !Contains(x + y, p)
  {
    var s := x + y;
    ContainsAt(s, p);
    ContainsAt(x, p);
    ContainsAt(y, p);
    forall i | 0 <= i <= |s| - |p| ensures !OccursAt(s, p, i) {
      if i + |p| <= |x| {
        assert s[i..i + |p|] == x[i..i + |p|];
        assert !OccursAt(x, p, i);
      } else if i >= |x| {
        assert s[i..i + |p|] == y[i - |x|..i - |x| + |p|];
        assert !OccursAt(y, p, i - |x|);
      } else {
        assert s[|x|] == y[0];
        assert s[i..i + |p|][|x| - i] == s[|x|];
        assert p[|x| - i] in p;
      }
    }
  }

  /** Replacing a suffix whose first character occurs nowhere before it
      replaces just that suffix. */
  lemma {:induction false} ReplaceTrailing(x: string, pat: string, rep: string)
    requires pat != [] && pat[0] !in x
    ensures ReplaceAll(x + pat, pat, rep) == x + rep
    decreases |x|
  {
    var s := x + pat;
    if x == [] {
      assert s == pat;
      assert s[|pat|..] == [];
    } else {
      assert s[0] == x[0] && x[0] != pat[0];
      assert !(pat <= s);
      assert s[1..] == x[1..] + pat;
      assert pat[0] !in x[1..] by {
        forall c | c in x[1..] ensures c != pat[0] {
          assert c in x;
        }
      }
      ReplaceTrailing(x[1..], pat, rep);
      calc {
        ReplaceAll(s, pat, rep);
        [s[0]] + ReplaceAll(s[1..], pat, rep);
        [x[0]] + (x[1..] + rep);
        { assert [x[0]] + x[1..] == x; }
        x + rep;
      }
    }
  }

  /** Replacing one character by another rewrites exactly its occurrences. */
  lemma {:induction false} ReplaceChar(s: string, a: char, b: char)
    ensures |ReplaceAll(s, [a], [b])| == |s|
    ensures forall i :: 0 <= i < |s| ==>
              ReplaceAll(s, [a], [b])[i] == if s[i] == a then b else s[i]
    decreases |s|
  {
    if s != [] {
      ReplaceChar(s[1..], a, b);
      if [a] <= s {
        assert s[0] == a;
        assert s[|[a]|..] == s[1..];
      }
    }
  }

  predicate IsUpper(c: char) { 'A' <= c <= 'Z' }
  predicate IsLower(c: char) { 'a' <= c <= 'z' }
  predicate IsCased(c: char) { IsUpper(c) || IsLower(c) }

  function ToUpper(c: char): (u: char)
    ensures IsCased(u) == IsCased(c)
    ensures !IsLower(u)
  {
    if IsLower(c) then (c as int - 32) as char else c
  }

  function ToLower(c: char): (l: char)
    ensures IsCased(l) == IsCased(c)
    ensures !IsUpper(l)
  {
    if IsUpper(c) then (c as int + 32) as char else c
  }

  /** `str.title()` continuing after a character that was (`prevCased`) or
      was not a letter. */
  function TitleFrom(s: string, prevCased: bool): string
    decreases |s|
  {
    if s == [] then []
    else
      var c := if prevCased then ToLower(s[0]) else ToUpper(s[0]);
      [c] + TitleFrom(s[1..], IsCased(c))
  }

  /** Python's `s.title()`: a letter is upper-cased when the character before
      it is not a letter, lower-cased otherwise. */
  function TitleCase(s: string): string {
    TitleFrom(s, false)
  }

  /** Whether position `i` of `s` starts a word for `str.title()`. */
  predicate StartsWord(s: string, i: int, prevCased: bool)
    requires 0 <= i < |s|
  {
    if i == 0 then !prevCased else !IsCased(s[i - 1])
  }

  /** The position-by-position meaning of `str.title()`. */
  lemma {:induction false} TitleFromAt(s: string, prevCased: bool)
    ensures |TitleFrom(s, prevCased)| == |s|
    ensures forall i :: 0 <= i < |s| ==>
              TitleFrom(s, prevCased)[i] ==
                if StartsWord(s, i, prevCased) then ToUpper(s[i]) else ToLower(s[i])
    decreases |s|
  {
    if s != [] {
      var c := if prevCased then ToLower(s[0]) else ToUpper(s[0]);
      TitleFromAt(s[1..], IsCased(c));
      forall i | 1 <= i < |s|
        ensures StartsWord(s[1..], i - 1, IsCased(c)) == StartsWord(s, i, prevCased)
      {
        if i == 1 {
          assert IsCased(c) == IsCased(s[0]);
        } else {
          assert s[1..][i - 2] == s[i - 1];
        }
      }
    }
  }

  /** Title-casing twice is title-casing once. */
  lemma {:induction false} TitleCaseIdempotent(s: string)
    ensures TitleCase(TitleCase(s)) == TitleCase(s)
  {
    var t := TitleCase(s);
    TitleFromAt(s, false);
    TitleFromAt(t, false);
    forall i | 0 <= i < |t|
      ensures TitleCase(t)[i] == t[i]
    {
      if i > 0 {
        assert IsCased(t[i - 1]) == IsCased(s[i - 1]);
      }
    }
  }
}
