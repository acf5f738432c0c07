/** Tag extraction: hashtags (a `#`, a letter, then letters, digits, `_` or `-`), lower-cased
    and without their `#`, followed by every keyword of the vocabulary that
    occurs in the lower-cased content, with duplicates removed as
    `[...new Set(tags)]` does. */
module Tags {
  import opened Text
  import opened Variants

  /** The characters `[a-zA-Z0-9_-]` that may continue a hashtag. */
  predicate IsTagChar(c: char) {
    IsLetter(c) || IsDigit(c) || c == '_' || c == '-'
  }

  /** Length of the longest run of tag characters at the start of s. */
  function TagRun(s: string): (n: nat)
    ensures n <= |s|
    ensures forall k :: 0 <= k < n ==> IsTagChar(s[k])
    ensures n < |s| ==> !IsTagChar(s[n])
  {
    if s == [] || !IsTagChar(s[0]) then 0 else 1 + TagRun(s[1..])
  }

  /** A hashtag starts at position i: a `#` followed by a letter. */
  predicate HashtagAt(s: string, i: int) {
    0 <= i && i + 1 < |s| && s[i] == '#' && IsLetter(s[i + 1])
  }

  /** The body of the hashtag starting at i: the letter and the tag characters after it. */
  function TagBodyAt(s: string, i: int): string
    requires HashtagAt(s, i)
  {
    s[i + 1..i + 1 + TagRun(s[i + 1..])]
  }

  /** t is the lower-cased body of some hashtag of s. */
  ghost predicate IsHashtagOf(s: string, t: string) {
    exists i :: HashtagAt(s, i) && t == Lower(TagBodyAt(s, i))
  }

  /** Every hashtag of `s`, in order, lower-cased and without its `#`. The scan
      resumes after each match, as a global regular-expression match does. */
  function Hashtags(s: string): (tags: seq<string>)
    ensures forall t :: t in tags ==> |t| >= 1 && IsLower(t[0])
    ensures forall t :: t in tags ==> forall k :: 0 <= k < |t| ==> IsTagChar(t[k]) && !IsUpper(t[k])
    decreases |s|
  {
    if |s| < 2 then []
    else if s[0] == '#' && IsLetter(s[1]) then
      var n := TagRun(s[1..]);
      LoweredTagBody(s[1..]);
      [Lower(s[1..1 + n])] + Hashtags(s[1 + n..])
    else Hashtags(s[1..])
  }

  /** A tag body that starts with a letter, lower-cased: a lower-case letter
      followed by tag characters, none of them upper-case. */
  lemma LoweredTagBody(body: string)
    requires body != [] && IsLetter(body[0])
    ensures var t := Lower(body[..TagRun(body)]);
            && |t| >= 1 && IsLower(t[0])
            && forall k :: 0 <= k < |t| ==> IsTagChar(t[k]) && !IsUpper(t[k])
  {
    var n := TagRun(body);
    var t := Lower(body[..n]);
    forall k | 0 <= k < |t|
      ensures IsTagChar(t[k]) && !IsUpper(t[k])
    {
      assert t[k] == LowerChar(body[k]);
    }
  }

  /** Dropping a prefix of m characters shifts hashtag positions by m. */
  lemma HashtagShift(s: string, m: nat, i: nat)
    requires m <= |s|
    ensures HashtagAt(s[m..], i) <==> HashtagAt(s, i + m)
    ensures HashtagAt(s, i + m) ==> TagBodyAt(s[m..], i) == TagBodyAt(s, i + m)
  {
    if HashtagAt(s, i + m) {
      assert s[m..][i + 1..] == s[i + m + 1..];
    }
  }

  /** Hashtags finds exactly the hashtags of s: every `#` followed by a letter,
      wherever it stands, and nothing else. */
  lemma {:induction false} HashtagsExact(s: string)
    ensures forall t :: t in Hashtags(s) <==> IsHashtagOf(s, t)
    decreases |s|
  {
    if |s| < 2 {
      forall t ensures !IsHashtagOf(s, t) {
      }
    } else if s[0] == '#' && IsLetter(s[1]) {
      var n := TagRun(s[1..]);
      HashtagsExact(s[1 + n..]);
      forall t ensures t in Hashtags(s) <==> IsHashtagOf(s, t) {
        HashtagsAfterMatch(s, t);
      }
    } else {
      HashtagsExact(s[1..]);
      forall t ensures t in Hashtags(s) <==> IsHashtagOf(s, t) {
        HashtagsAfterSkip(s, t);
      }
    }
  }

  /** The inductive step of HashtagsExact when a hashtag starts at position 0. */
  lemma HashtagsAfterMatch(s: string, t: string)
    requires |s| >= 2 && s[0] == '#' && IsLetter(s[1])
    requires var rest := s[1 + TagRun(s[1..])..];
             t in Hashtags(rest) <==> IsHashtagOf(rest, t)
    ensures t in Hashtags(s) <==> IsHashtagOf(s, t)
  {
    var n := TagRun(s[1..]);
    var rest := s[1 + n..];
    var first := Lower(s[1..1 + n]);
    assert HashtagAt(s, 0);
    assert TagBodyAt(s, 0) == s[1..1 + n];
    assert Hashtags(s) == [first] + Hashtags(rest);
    if t == first {
      assert HashtagAt(s, 0) && t == Lower(TagBodyAt(s, 0));
    } else {
      HashtagOfSuffix(s, 1 + n, t);
      if IsHashtagOf(s, t) {
        HashtagOfAfterFirst(s, t);
      }
    }
  }

  /** A hashtag of a suffix of s is a hashtag of s. */
  lemma HashtagOfSuffix(s: string, m: nat, t: string)
    requires m <= |s|
    ensures IsHashtagOf(s[m..], t) ==> IsHashtagOf(s, t)
  {
    if IsHashtagOf(s[m..], t) {
      var j :| HashtagAt(s[m..], j) && t == Lower(TagBodyAt(s[m..], j));
      HashtagShift(s, m, j);
      assert HashtagAt(s, j + m) && t == Lower(TagBodyAt(s, j + m));
    }
  }

  /** A hashtag of s other than the one at position 0 is a hashtag of the text after that one. */
  lemma HashtagOfAfterFirst(s: string, t: string)
    requires |s| >= 2 && s[0] == '#' && IsLetter(s[1])
    requires IsHashtagOf(s, t) && t != Lower(s[1..1 + TagRun(s[1..])])
    ensures IsHashtagOf(s[1 + TagRun(s[1..])..], t)
  {
    var n := TagRun(s[1..]);
    assert HashtagAt(s, 0) && TagBodyAt(s, 0) == s[1..1 + n];
    var i :| HashtagAt(s, i) && t == Lower(TagBodyAt(s, i));
    LaterHashtag(s, i);
    HashtagInSuffix(s, 1 + n, i, t);
  }

  /** A hashtag that starts at or after position m is a hashtag of s[m..]. */
  lemma HashtagInSuffix(s: string, m: nat, i: nat, t: string)
    requires m <= i && HashtagAt(s, i) && t == Lower(TagBodyAt(s, i))
    ensures IsHashtagOf(s[m..], t)
  {
    var rest := s[m..];
    var j := i - m;
    assert rest[j..] == s[i..];
    assert HashtagAt(rest, j);
    assert TagBodyAt(rest, j) == TagBodyAt(s, i) by {
      assert rest[j + 1..] == s[i + 1..];
    }
  }

  /** A hashtag after the one at position 0 starts after that one's body. */
  lemma LaterHashtag(s: string, i: int)
    requires |s| >= 2 && s[0] == '#' && IsLetter(s[1])
    requires HashtagAt(s, i) && i != 0
    ensures i >= 1 + TagRun(s[1..])
  {
  }

  /** The inductive step of HashtagsExact when no hashtag starts at position 0. */
  lemma HashtagsAfterSkip(s: string, t: string)
    requires |s| >= 2 && !(s[0] == '#' && IsLetter(s[1]))
    requires t in Hashtags(s[1..]) <==> IsHashtagOf(s[1..], t)
    ensures t in Hashtags(s) <==> IsHashtagOf(s, t)
  {
    assert Hashtags(s) == Hashtags(s[1..]);
    if t in Hashtags(s[1..]) {
      var i' :| HashtagAt(s[1..], i') && t == Lower(TagBodyAt(s[1..], i'));
      HashtagShift(s, 1, i');
    }
    if IsHashtagOf(s, t) {
      var i :| HashtagAt(s, i) && t == Lower(TagBodyAt(s, i));
      HashtagShift(s, 1, i - 1);
    }
  }

  /** A hashtag's lower-cased body occurs in the lower-cased content. */
  lemma HashtagInLowered(s: string, t: string)
    requires IsHashtagOf(s, t)
    ensures Contains(Lower(s), t)
  {
    var i :| HashtagAt(s, i) && t == Lower(TagBodyAt(s, i));
    LowerSliceContained(s, i + 1, i + 1 + TagRun(s[i + 1..]), t);
  }

  /** The keywords of `keywords`, in order, that occur in `lowered`: what the
      keyword loop pushes. */
  function KeywordHits(keywords: seq<string>, lowered: string): seq<string>
  {
    if keywords == [] then []
    else
      var last := keywords[|keywords| - 1];
      KeywordHits(keywords[..|keywords| - 1], lowered) + (if Contains(lowered, last) then [last] else [])
  }

  /** One more keyword scanned adds it when it occurs. */
  lemma KeywordHitsSnoc(keywords: seq<string>, i: nat, lowered: string)
    requires i < |keywords|
    ensures KeywordHits(keywords[..i + 1], lowered) ==
            KeywordHits(keywords[..i], lowered) + (if Contains(lowered, keywords[i]) then [keywords[i]] else [])
  {
    assert keywords[..i + 1][..i] == keywords[..i];
  }

  lemma {:induction false} KeywordHitsExact(keywords: seq<string>, lowered: string)
    ensures forall k :: k in KeywordHits(keywords, lowered) <==> k in keywords && Contains(lowered, k)
    decreases |keywords|
  {
    if keywords != [] {
      var init := keywords[..|keywords| - 1];
      KeywordHitsExact(init, lowered);
      assert keywords == init + [keywords[|keywords| - 1]];
    }
  }

  /** `[...new Set(s)]`: the values of s, each once, in order of first occurrence. */
  function Dedup<T(==,!new)>(s: seq<T>): (r: seq<T>)
    ensures NoDup(r)
    ensures forall x :: x in r <==> x in s
  {
    if s == [] then []
    else
      var d := Dedup(s[..|s| - 1]);
      var x := s[|s| - 1];
      assert s == s[..|s| - 1] + [x];
      if x in d then d else d + [x]
  }

  /** The tags `extractTags` returns for content, given the keyword vocabulary. */
  function TagsOf(keywords: seq<string>, content: string): seq<string>
  {
    Dedup(Hashtags(content) + KeywordHits(keywords, Lower(content)))
  }

  /** The tags have no duplicates; a keyword is a tag exactly when it occurs in
      the lower-cased content; every other tag is a hashtag of the content. */
  lemma TagsOfExact(keywords: seq<string>, content: string)
    ensures NoDup(TagsOf(keywords, content))
    ensures forall t :: t in TagsOf(keywords, content) <==>
              IsHashtagOf(content, t) || (t in keywords && Contains(Lower(content), t))
    ensures forall k :: k in keywords ==> (k in TagsOf(keywords, content) <==> Contains(Lower(content), k))
  {
    HashtagsExact(content);
    KeywordHitsExact(keywords, Lower(content));
    forall t | IsHashtagOf(content, t) ensures Contains(Lower(content), t) {
      HashtagInLowered(content, t);
    }
  }

  /** `extractTags`: push the hashtags, then each keyword found, then remove
      duplicates. The keyword list is the copy's vocabulary, `Keywords(v)`. */
  method ExtractTags(keywords: seq<string>, content: string) returns (tags: seq<string>)
    ensures tags == TagsOf(keywords, content)
  {
    var found := Hashtags(content);
    var lowered := Lower(content);
    for i := 0 to |keywords|
      invariant found == Hashtags(content) + KeywordHits(keywords[..i], lowered)
    {
      KeywordHitsSnoc(keywords, i, lowered);
      if Contains(lowered, keywords[i]) {
        found := found + [keywords[i]];
      }
    }
    assert keywords[..|keywords|] == keywords;
    tags := Dedup(found);
  }
}
