/** Character classes and the string primitives the memory parser is built on,
    each written after the JavaScript operation it stands for: `trim`,
    `split` on one character, `join`, `includes`, `replace` of a literal and
    ASCII `toLowerCase`. */
module Text {

  datatype Option<T> = None | Some(value: T)

  /** No value occurs twice in s. */
  predicate NoDup<T(==)>(s: seq<T>) {
    forall i, j :: 0 <= i < j < |s| ==> s[i] != s[j]
  }

  /** JavaScript's WhiteSpace and LineTerminator code points: what `trim`
      removes and what `\s` matches in a regular expression. */
  predicate IsSpace(c: char) {
    c == ' ' || c == '\t' || c == '\n' || c == '\r' || c == '\U{000B}' || c == '\U{000C}'
    || c == '\U{00A0}' || c == '\U{1680}' || ('\U{2000}' <= c <= '\U{200A}')
    || c == '\U{2028}' || c == '\U{2029}' || c == '\U{202F}' || c == '\U{205F}'
    || c == '\U{3000}' || c == '\U{FEFF}'
  }

  /** The characters that a regular-expression `.` does not match. */
  predicate IsLineTerminator(c: char) {
    c == '\n' || c == '\r' || c == '\U{2028}' || c == '\U{2029}'
  }

  predicate IsDigit(c: char) { '0' <= c <= '9' }
  predicate IsUpper(c: char) { 'A' <= c <= 'Z' }
  predicate IsLower(c: char) { 'a' <= c <= 'z' }
  predicate IsLetter(c: char) { IsUpper(c) || IsLower(c) }

  /** ASCII `toLowerCase` of one character. */
  function LowerChar(c: char): (d: char)
    ensures !IsUpper(d)
    ensures IsLetter(c) <==> IsLower(d)
    ensures IsDigit(c) <==> IsDigit(d)
    ensures !IsUpper(c) ==> d == c
  {
    if IsUpper(c) then (c as int + 32) as char else c
  }

  /** An upper-case letter becomes the lower-case letter at the same place in
      the alphabet. */
  lemma LowerCharOffset(c: char)
    requires IsUpper(c)
    ensures LowerChar(c) as int - 'a' as int == c as int - 'A' as int
  {
  }

  /** ASCII `toLowerCase` of a string, character by character. */
  function Lower(s: string): (r: string)
    ensures |r| == |s|
    ensures forall i :: 0 <= i < |s| ==> r[i] == LowerChar(s[i])
  {
    seq(|s|, i requires 0 <= i < |s| => LowerChar(s[i]))
  }

  lemma LowerSlice(s: string, a: nat, b: nat)
    requires a <= b <= |s|
    ensures Lower(s)[a..b] == Lower(s[a..b])
  {
    assert forall k :: 0 <= k < b - a ==> Lower(s)[a..b][k] == Lower(s[a..b])[k];
  }

  /** The lower-cased text of a slice is contained in the lower-cased text. */
  lemma LowerSliceContained(s: string, a: nat, b: nat, t: string)
    requires a <= b <= |s| && t == Lower(s[a..b])
    ensures Contains(Lower(s), t)
  {
    LowerSlice(s, a, b);
    assert OccursAt(Lower(s), t, a);
  }

  /** Number of white-space characters at the start of s. */
  function LeadingSpaces(s: string): (n: nat)
    ensures n <= |s|
    ensures forall k :: 0 <= k < n ==> IsSpace(s[k])
    ensures n < |s| ==> !IsSpace(s[n])
  {
    if s == [] || !IsSpace(s[0]) then 0 else 1 + LeadingSpaces(s[1..])
  }

  /** Number of white-space characters at the end of s. */
  function TrailingSpaces(s: string): (n: nat)
    ensures n <= |s|
    ensures forall k :: |s| - n <= k < |s| ==> IsSpace(s[k])
    ensures n < |s| ==> !IsSpace(s[|s| - 1 - n])
  {
    if s == [] || !IsSpace(s[|s| - 1]) then 0 else 1 + TrailingSpaces(s[..|s| - 1])
  }

  /** `String.prototype.trim`: s without its leading and trailing white space. */
  function Trim(s: string): (r: string)
    ensures r == [] || (!IsSpace(r[0]) && !IsSpace(r[|r| - 1]))
    ensures r == [] <==> forall k :: 0 <= k < |s| ==> IsSpace(s[k])
    ensures exists i, j :: 0 <= i <= j <= |s| && r == s[i..j]
                           && (forall k :: 0 <= k < i ==> IsSpace(s[k]))
                           && (forall k :: j <= k < |s| ==> IsSpace(s[k]))
  {
    var i := LeadingSpaces(s);
    TrailingOfSuffix(s, i);
    var j := |s| - TrailingSpaces(s[i..]);
    s[i..j]
  }

  /** The trailing white space of a suffix of s is trailing white space of s. */
  lemma TrailingOfSuffix(s: string, i: nat)
    requires i <= |s|
    ensures var n := TrailingSpaces(s[i..]);
            && (forall k :: |s| - n <= k < |s| ==> IsSpace(s[k]))
            && (n < |s| - i ==> !IsSpace(s[|s| - 1 - n]))
  {
    var t := s[i..];
    var n := TrailingSpaces(t);
    forall k | |s| - n <= k < |s|
      ensures IsSpace(s[k])
    {
      assert s[k] == t[k - i];
    }
    if n < |t| {
      assert t[|t| - 1 - n] == s[|s| - 1 - n];
    }
  }

  /** `s.split(sep)` for a one-character separator: the pieces between the
      occurrences of sep, always at least one. */
  function Split(s: string, sep: char): (parts: seq<string>)
    ensures |parts| >= 1
    ensures forall p :: p in parts ==> sep !in p
  {
    if s == [] then [[]]
    else
      var init := Split(s[..|s| - 1], sep);
      if s[|s| - 1] == sep then init + [[]]
      else init[..|init| - 1] + [init[|init| - 1] + [s[|s| - 1]]]
  }

  /** `parts.join(sep)`. */
  function Join(parts: seq<string>, sep: char): string
  {
    if parts == [] then []
    else if |parts| == 1 then parts[0]
    else Join(parts[..|parts| - 1], sep) + [sep] + parts[|parts| - 1]
  }

  /** Appending a character to the text appends it to the last piece of the join. */
  lemma JoinExtendLast(parts: seq<string>, sep: char, c: char)
    requires |parts| >= 1
    ensures Join(parts[..|parts| - 1] + [parts[|parts| - 1] + [c]], sep) == Join(parts, sep) + [c]
  {
    var n := |parts|;
    var ext := parts[..n - 1] + [parts[n - 1] + [c]];
    if n > 1 {
      assert ext[..n - 1] == parts[..n - 1];
    }
  }

  /** Appending an empty piece appends a separator to the join. */
  lemma JoinEmptyLast(parts: seq<string>, sep: char)
    requires |parts| >= 1
    ensures Join(parts + [[]], sep) == Join(parts, sep) + [sep]
  {
    assert (parts + [[]])[..|parts|] == parts;
  }

  /** Joining the pieces of a split gives the original text back. */
  lemma {:induction false} JoinSplit(s: string, sep: char)
    ensures Join(Split(s, sep), sep) == s
    decreases |s|
  {
    if s != [] {
      var s' := s[..|s| - 1];
      var c := s[|s| - 1];
      var init := Split(s', sep);
      JoinSplit(s', sep);
      assert s == s' + [c];
      SplitSnoc(s', c, sep);
      if c == sep {
        JoinEmptyLast(init, sep);
      } else {
        JoinExtendLast(init, sep, c);
      }
    }
  }

  /** The defining step of Split, stated for a text extended by one character. */
  lemma SplitSnoc(s: string, c: char, sep: char)
    ensures var init := Split(s, sep);
            Split(s + [c], sep) == if c == sep then init + [[]]
                                   else init[..|init| - 1] + [init[|init| - 1] + [c]]
  {
    assert (s + [c])[..|s|] == s;
  }

  /** Splitting at a separator occurrence splits the two sides independently. */
  lemma {:induction false} SplitAppend(a: string, b: string, sep: char)
    ensures Split(a + [sep] + b, sep) == Split(a, sep) + Split(b, sep)
    decreases |b|
  {
    if b == [] {
      SplitSnoc(a, sep, sep);
      assert a + [sep] + b == a + [sep];
      assert Split(b, sep) == [[]];
    } else {
      var b' := b[..|b| - 1];
      var c := b[|b| - 1];
      SplitAppend(a, b', sep);
      assert a + [sep] + b == (a + [sep] + b') + [c];
      assert b == b' + [c];
      SplitAppendStep(a + [sep] + b', b', c, sep, Split(a, sep));
    }
  }

  /** The inductive step of SplitAppend: both sides grow by the same character. */
  lemma SplitAppendStep(s: string, b: string, c: char, sep: char, left: seq<string>)
    requires Split(s, sep) == left + Split(b, sep)
    ensures Split(s + [c], sep) == left + Split(b + [c], sep)
  {
    SplitSnoc(s, c, sep);
    SplitSnoc(b, c, sep);
    var right := Split(b, sep);
    if c != sep {
      ExtendLastOfAppend(left, right, right[|right| - 1] + [c]);
    }
  }

  /** A non-empty sequence is its front followed by its last element. */
  lemma FrontAndLast<T>(s: seq<T>)
    requires s != []
    ensures s[..|s| - 1] + [s[|s| - 1]] == s
  {
  }

  lemma ExtendLastOfAppend<T>(left: seq<T>, right: seq<T>, x: T)
    requires right != []
    ensures (left + right)[..|left + right| - 1] + [x] == left + (right[..|right| - 1] + [x])
  {
  }

  /** A string without the separator is one piece. */
  lemma {:induction false} SplitNoSeparator(s: string, sep: char)
    requires sep !in s
    ensures Split(s, sep) == [s]
    decreases |s|
  {
    if s != [] {
      SplitNoSeparator(s[..|s| - 1], sep);
      assert s == s[..|s| - 1] + [s[|s| - 1]];
    }
  }

  /** Splitting a join of separator-free pieces gives the pieces back. */
  lemma {:induction false} SplitJoin(parts: seq<string>, sep: char)
    requires |parts| >= 1
    requires forall p :: p in parts ==> sep !in p
    ensures Split(Join(parts, sep), sep) == parts
    decreases |parts|
  {
    var n := |parts|;
    if n == 1 {
      SplitNoSeparator(parts[0], sep);
    } else {
      var init := parts[..n - 1];
      assert forall p :: p in init ==> p in parts;
      SplitJoin(init, sep);
      SplitAppend(Join(init, sep), parts[n - 1], sep);
      SplitNoSeparator(parts[n - 1], sep);
      assert parts == init + [parts[n - 1]];
    }
  }

  /** pat occurs in s starting at position i. */
  predicate OccursAt(s: string, pat: string, i: int) {
    0 <= i && i + |pat| <= |s| && s[i..i + |pat|] == pat
  }

  lemma OccursShift(s: string, pat: string, i: int)
    requires |s| >= 1 && i >= 0
    ensures OccursAt(s[1..], pat, i) <==> OccursAt(s, pat, i + 1)
  {
    if 0 <= i && i + |pat| <= |s| - 1 {
      assert s[1..][i..i + |pat|] == s[i + 1..i + 1 + |pat|];
    }
  }

  /** `hay.includes(needle)`. */
  function Contains(hay: string, needle: string): (b: bool)
    ensures b <==> exists i :: OccursAt(hay, needle, i)
    decreases |hay|
  {
    if |needle| > |hay| then false
    else if hay[..|needle|] == needle then
      assert OccursAt(hay, needle, 0);
      true
    else
      var b := Contains(hay[1..], needle);
      assert b ==> exists i :: OccursAt(hay, needle, i) by {
        if b {
          var i :| OccursAt(hay[1..], needle, i);
          OccursShift(hay, needle, i);
        }
      }
      assert (exists i :: OccursAt(hay, needle, i)) ==> b by {
        if exists i :: OccursAt(hay, needle, i) {
          var i :| OccursAt(hay, needle, i);
          assert i != 0;
          OccursShift(hay, needle, i - 1);
        }
      }
      b
  }

  /** Position of the first occurrence of pat in s, as `indexOf` finds it; -1 if there is none. */
  function IndexOf(s: string, pat: string): (r: int)
    ensures -1 <= r
    ensures r >= 0 ==> OccursAt(s, pat, r)
    ensures forall i :: 0 <= i && (r < 0 || i < r) ==> !OccursAt(s, pat, i)
    decreases |s|
  {
    if |pat| > |s| then -1
    else if s[..|pat|] == pat then 0
    else
      var k := IndexOf(s[1..], pat);
      assert forall i :: 1 <= i ==> (OccursAt(s, pat, i) <==> OccursAt(s[1..], pat, i - 1)) by {
        forall i | 1 <= i ensures OccursAt(s, pat, i) <==> OccursAt(s[1..], pat, i - 1) {
          OccursShift(s, pat, i - 1);
        }
      }
      if k < 0 then -1 else k + 1
  }

  /** `s.replace(pat, rep)` with a string pattern: only the first occurrence is replaced. */
  function ReplaceFirst(s: string, pat: string, rep: string): string
  {
    var i := IndexOf(s, pat);
    if i < 0 then s else s[..i] + rep + s[i + |pat|..]
  }

  /** `p.split('/').pop()`: the text after the last '/'. */
  function LastSegment(p: string): (r: string)
    ensures '/' !in r
    ensures |r| <= |p| && r == p[|p| - |r|..]
    ensures |r| < |p| ==> p[|p| - |r| - 1] == '/'
  {
    var parts := Split(p, '/');
    LastSegmentIsSuffix(p);
    parts[|parts| - 1]
  }

  lemma {:induction false} LastSegmentIsSuffix(p: string)
    ensures var r := Split(p, '/')[|Split(p, '/')| - 1];
            |r| <= |p| && r == p[|p| - |r|..] && (|r| < |p| ==> p[|p| - |r| - 1] == '/')
    decreases |p|
  {
    if p != [] {
      LastSegmentIsSuffix(p[..|p| - 1]);
    }
  }
}
