/** Node ids: `source-title`, lower-cased, every run of characters outside
    `[a-z0-9]` replaced by one '-', one leading and one trailing '-' removed,
    and the result cut to its first 50 characters. */
module Ids {
  import opened Text

  /** The longest id `generateId` returns. */
  const MaxIdLength: nat := 50

  /** The characters `[a-z0-9]` that survive into an id unchanged. */
  predicate IsSlugAlnum(c: char) {
    IsLower(c) || IsDigit(c)
  }

  /** The characters an id may contain: `[a-z0-9-]`. */
  predicate IsSlugChar(c: char) {
    IsSlugAlnum(c) || c == '-'
  }

  /** No two adjacent dashes. */
  predicate NoDoubleDash(s: string) {
    forall i :: 0 <= i < |s| - 1 ==> !(s[i] == '-' && s[i + 1] == '-')
  }

  /** The shape every id has: at most 50 characters from `[a-z0-9-]`, no
      leading dash and no two dashes in a row. */
  predicate IsSlugId(id: string) {
    |id| <= MaxIdLength
    && (forall i :: 0 <= i < |id| ==> IsSlugChar(id[i]))
    && (id == [] || id[0] != '-')
    && NoDoubleDash(id)
  }

  /** The characters of s in `[a-z0-9]`, in order. */
  function Alphanumerics(s: string): string
  {
    if s == [] then []
    else (if IsSlugAlnum(s[0]) then [s[0]] else []) + Alphanumerics(s[1..])
  }

  /** `.replace(/[^a-z0-9]+/g, '-')`: every maximal run of characters outside
      `[a-z0-9]` becomes a single '-'. */
  function CollapseRuns(s: string): (r: string)
    ensures forall i :: 0 <= i < |r| ==> IsSlugChar(r[i])
    ensures NoDoubleDash(r)
    ensures s != [] ==> r != [] && (r[0] == '-' <==> !IsSlugAlnum(s[0]))
    ensures Alphanumerics(r) == Alphanumerics(s)
  {
    if s == [] then []
    else
      var rest := CollapseRuns(s[1..]);
      if IsSlugAlnum(s[0]) then [s[0]] + rest
      else if rest != [] && rest[0] == '-' then rest
      else
        assert Alphanumerics(['-'] + rest) == Alphanumerics(rest) by {
          assert (['-'] + rest)[1..] == rest;
        }
        ['-'] + rest
  }

  /** A text made only of `[a-z0-9]` is left as it is. */
  lemma {:induction false} CollapseRunsAllAlnum(s: string)
    requires forall k :: 0 <= k < |s| ==> IsSlugAlnum(s[k])
    ensures CollapseRuns(s) == s
    decreases |s|
  {
    if s != [] {
      assert forall k :: 0 <= k < |s| - 1 ==> s[1..][k] == s[k + 1];
      CollapseRunsAllAlnum(s[1..]);
    }
  }

  /** A non-empty text with no character of `[a-z0-9]` becomes a single '-'. */
  lemma {:induction false} CollapseRunsNoAlnum(s: string)
    requires s != []
    requires forall k :: 0 <= k < |s| ==> !IsSlugAlnum(s[k])
    ensures CollapseRuns(s) == "-"
    decreases |s|
  {
    if |s| > 1 {
      assert forall k :: 0 <= k < |s| - 1 ==> s[1..][k] == s[k + 1];
      CollapseRunsNoAlnum(s[1..]);
    }
  }

  /** Where a character of `[a-z0-9]` stands at the seam, the two sides are
      replaced independently: no run outside `[a-z0-9]` crosses it. With the
      two lemmas above this fixes the result for every text: each maximal run
      outside `[a-z0-9]` becomes one '-' between the characters around it. */
  lemma {:induction false} CollapseRunsAppend(x: string, y: string)
    requires (x != [] && IsSlugAlnum(x[|x| - 1])) || (y != [] && IsSlugAlnum(y[0]))
    ensures CollapseRuns(x + y) == CollapseRuns(x) + CollapseRuns(y)
    decreases |x|
  {
    if x == [] {
      assert x + y == y;
    } else {
      var rest := x[1..];
      assert (x + y)[0] == x[0];
      assert (x + y)[1..] == rest + y;
      if rest == [] {
        assert rest + y == y;
      } else {
        assert rest[|rest| - 1] == x[|x| - 1];
        CollapseRunsAppend(rest, y);
      }
    }
  }

  /** `.replace(/(^-|-$)/g, '')`: one leading and one trailing '-' removed. */
  function StripDashes(s: string): string
  {
    DropTrailingDash(DropLeadingDash(s))
  }

  function DropLeadingDash(s: string): string
  {
    if s != [] && s[0] == '-' then s[1..] else s
  }

  function DropTrailingDash(s: string): string
  {
    if s != [] && s[|s| - 1] == '-' then s[..|s| - 1] else s
  }

  /** The id before truncation. */
  function Slug(s: string): string
  {
    StripDashes(CollapseRuns(Lower(s)))
  }

  /** `generateId(title, source)`. */
  function GenerateId(title: string, source: string): (id: string)
    ensures IsSlugId(id)
  {
    var base := Slug(source + "-" + title);
    SlugShape(source + "-" + title);
    if |base| <= MaxIdLength then base else base[..MaxIdLength]
  }

  /** The characters an id may hold, with no dash next to another. */
  predicate DashSeparated(s: string) {
    (forall i :: 0 <= i < |s| ==> IsSlugChar(s[i])) && NoDoubleDash(s)
  }

  /** Dropping a leading dash keeps the shape and the alphanumerics, and leaves
      no dash in front when there were no two in a row. */
  lemma DropLeadingDashShape(s: string)
    requires DashSeparated(s)
    ensures DashSeparated(DropLeadingDash(s))
    ensures Alphanumerics(DropLeadingDash(s)) == Alphanumerics(s)
    ensures DropLeadingDash(s) == [] || DropLeadingDash(s)[0] != '-'
  {
    if s != [] && s[0] == '-' {
      assert forall i :: 0 <= i < |s| - 1 ==> s[1..][i] == s[i + 1];
    }
  }

  /** Dropping a trailing dash keeps the shape, the alphanumerics and the
      first character, and leaves no dash at the end. */
  lemma DropTrailingDashShape(s: string)
    requires DashSeparated(s)
    requires s == [] || s[0] != '-'
    ensures DashSeparated(DropTrailingDash(s))
    ensures Alphanumerics(DropTrailingDash(s)) == Alphanumerics(s)
    ensures var t := DropTrailingDash(s); t == [] || (t[0] != '-' && t[|t| - 1] != '-')
  {
    if s != [] && s[|s| - 1] == '-' {
      var t := s[..|s| - 1];
      AlphanumericsAppend(t, "-");
      assert s == t + "-";
      if |t| >= 1 {
        assert s[|s| - 2] != '-';
      }
    }
  }

  /** Dropping dashes at either end keeps the characters `[a-z0-9-]`, the
      single dashes and the alphanumerics, and leaves no dash at the ends. */
  lemma SlugShape(s: string)
    ensures DashSeparated(Slug(s))
    ensures Slug(s) == [] || (Slug(s)[0] != '-' && Slug(s)[|Slug(s)| - 1] != '-')
    ensures Alphanumerics(Slug(s)) == Alphanumerics(Lower(s))
  {
    var c := CollapseRuns(Lower(s));
    DropLeadingDashShape(c);
    DropTrailingDashShape(DropLeadingDash(c));
  }

  lemma {:induction false} AlphanumericsAppend(a: string, b: string)
    ensures Alphanumerics(a + b) == Alphanumerics(a) + Alphanumerics(b)
    decreases |a|
  {
    if a != [] {
      AlphanumericsAppend(a[1..], b);
      assert (a + b)[1..] == a[1..] + b;
    } else {
      assert a + b == b;
    }
  }

  /** The id keeps, in order, the letters and digits of the lower-cased
      `source-title`: all of them when it is short enough not to be cut, a
      prefix of them otherwise; and an uncut id never ends in '-'. */
  lemma IdKeepsAlphanumerics(title: string, source: string)
    ensures var all := Alphanumerics(Lower(source + "-" + title));
            var kept := Alphanumerics(GenerateId(title, source));
            |kept| <= |all| && kept == all[..|kept|]
    ensures |Slug(source + "-" + title)| <= MaxIdLength ==>
              Alphanumerics(GenerateId(title, source)) == Alphanumerics(Lower(source + "-" + title))
              && (GenerateId(title, source) == [] || GenerateId(title, source)[|GenerateId(title, source)| - 1] != '-')
  {
    var s := source + "-" + title;
    var base := Slug(s);
    SlugShape(s);
    if |base| > MaxIdLength {
      AlphanumericsAppend(base[..MaxIdLength], base[MaxIdLength..]);
      assert base == base[..MaxIdLength] + base[MaxIdLength..];
    }
  }
}
