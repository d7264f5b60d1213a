/** The file name `saveAsMarkdown` gives the download: the page title
    reduced to lower-case letters, digits and single dashes, then the host
    and the date. */
module Slug {
  import opened Seqs
  import opened Text

  /** The characters a sanitized title is made of. */
  predicate IsSlugChar(c: char) {
    ('a' <= c <= 'z') || ('0' <= c <= '9') || c == '-'
  }

  /** No two adjacent dashes. */
  predicate NoDoubleDash(s: string) {
    forall k :: 0 <= k < |s| - 1 ==> s[k] != '-' || s[k + 1] != '-'
  }

  /** `replace(/[^a-z0-9]/gi, '-')`: each character outside the ASCII
      letters and digits becomes a dash. (The regex has no `u` flag, so a
      character outside the Basic Multilingual Plane becomes two dashes; the
      next step collapses them, so the sanitized title is the same.) */
  function DashNonAlnum(s: string): (r: string)
    ensures |r| == |s|
    ensures forall k :: 0 <= k < |s| ==> r[k] == if IsAsciiAlnum(s[k]) then s[k] else '-'
  {
    seq(|s|, k requires 0 <= k < |s| => if IsAsciiAlnum(s[k]) then s[k] else '-')
  }

  /** `replace(/-+/g, '-')`: each run of dashes becomes one dash. The
      result keeps the first and last character, uses only characters of
      `s`, and is `s` itself when `s` has no double dash. */
  function CollapseDashes(s: string): (r: string)
    ensures NoDoubleDash(r)
    ensures |r| <= |s|
    ensures s == [] <==> r == []
    ensures s != [] ==> r[0] == s[0] && r[|r| - 1] == s[|s| - 1]
    ensures forall c :: c in r <==> c in s
    ensures NoDoubleDash(s) ==> r == s
  {
    if |s| <= 1 then s
    else
      var rest := CollapseDashes(s[1..]);
      assert s == [s[0]] + s[1..];
      NoDoubleDashCons(s[0], s[1..]);
      NoDoubleDashCons(s[0], rest);
      if s[0] == '-' && s[1] == '-' then rest
      else [s[0]] + rest
  }

  /** A character in front of a string adds a double dash only when both
      it and the string's first character are dashes. */
  lemma NoDoubleDashCons(c: char, t: string)
    ensures NoDoubleDash([c] + t) <==> NoDoubleDash(t) && (t == [] || c != '-' || t[0] != '-')
  {
    var s := [c] + t;
    if NoDoubleDash(s) {
      forall k | 0 <= k < |t| - 1
        ensures t[k] != '-' || t[k + 1] != '-'
      {
        assert s[k + 1] == t[k] && s[k + 2] == t[k + 1];
      }
      if t != [] {
        assert s[0] == c && s[1] == t[0];
      }
    }
    if NoDoubleDash(t) && (t == [] || c != '-' || t[0] != '-') {
      forall k | 0 <= k < |s| - 1
        ensures s[k] != '-' || s[k + 1] != '-'
      {
        if k > 0 {
          assert s[k] == t[k - 1] && s[k + 1] == t[k];
        }
      }
    }
  }

  /** Collapsing splits where the boundary is not inside a run of dashes:
      each side collapses on its own. */
  lemma {:induction false} CollapseSplit(x: string, y: string)
    requires x == [] || y == [] || x[|x| - 1] != '-' || y[0] != '-'
    ensures CollapseDashes(x + y) == CollapseDashes(x) + CollapseDashes(y)
  {
    var s := x + y;
    if x == [] {
      assert s == y;
    } else if y == [] {
      assert s == x;
    } else if |x| == 1 {
      assert s[0] == x[0] && s[1] == y[0] && s[1..] == y;
    } else {
      assert s[0] == x[0] && s[1] == x[1] && s[1..] == x[1..] + y;
      CollapseSplit(x[1..], y);
    }
  }

  /** A run of dashes collapses to exactly one dash. */
  lemma {:induction false} CollapseDashRun(s: string)
    requires s != [] && forall k :: 0 <= k < |s| ==> s[k] == '-'
    ensures CollapseDashes(s) == "-"
  {
    if |s| > 1 {
      CollapseDashRun(s[1..]);
    }
  }

  /** Collapsing only drops dashes: every other character survives in
      order. */
  lemma {:induction false} CollapseKeepsNonDashes(s: string, keep: char -> bool)
    requires !keep('-')
    ensures Filter(CollapseDashes(s), keep) == Filter(s, keep)
  {
    if |s| > 1 {
      CollapseKeepsNonDashes(s[1..], keep);
      var rest := CollapseDashes(s[1..]);
      if !(s[0] == '-' && s[1] == '-') {
        assert ([s[0]] + rest)[1..] == rest;
      }
    }
  }

  /** Dashing non-alphanumerics keeps the alphanumerics in order. */
  lemma {:induction false} DashKeepsAlnum(s: string)
    ensures Filter(DashNonAlnum(s), IsAsciiAlnum) == Filter(s, IsAsciiAlnum)
  {
    if s != [] {
      DashKeepsAlnum(s[1..]);
      assert DashNonAlnum(s)[1..] == DashNonAlnum(s[1..]);
    }
  }

  /** Lower-casing commutes with keeping the alphanumerics. */
  lemma {:induction false} LowerKeepsAlnum(s: string)
    ensures Filter(Lower(s), IsAsciiAlnum) == Lower(Filter(s, IsAsciiAlnum))
  {
    if s != [] {
      var c, t := s[0], s[1..];
      LowerKeepsAlnum(t);
      assert s == [c] + t;
      LowerCons(c, t);
      assert IsAsciiAlnum(AsciiLower(c)) == IsAsciiAlnum(c);
      FilterCons(AsciiLower(c), Lower(t), IsAsciiAlnum);
      FilterCons(c, t, IsAsciiAlnum);
      LowerCons(c, Filter(t, IsAsciiAlnum));
    }
  }

  /** The sanitized title: dashes for everything but ASCII letters and
      digits, runs of dashes collapsed, then lower case. */
  function SanitizeTitle(title: string): (r: string)
    ensures forall k :: 0 <= k < |r| ==> IsSlugChar(r[k])
    ensures NoDoubleDash(r)
    ensures r == "" <==> title == ""
    ensures title != "" ==> (r[0] == '-' <==> !IsAsciiAlnum(title[0]))
    ensures title != "" ==> (r[|r| - 1] == '-' <==> !IsAsciiAlnum(title[|title| - 1]))
    ensures (forall k :: 0 <= k < |title| ==> IsAsciiAlnum(title[k])) ==> r == Lower(title)
  {
    AlnumUnchanged(title);
    var collapsed := CollapseDashes(DashNonAlnum(title));
    LowerSlugChars(DashNonAlnum(title), collapsed);
    Lower(collapsed)
  }

  /** A title of letters and digits only has nothing to dash or collapse. */
  lemma AlnumUnchanged(title: string)
    ensures (forall k :: 0 <= k < |title| ==> IsAsciiAlnum(title[k])) ==>
      DashNonAlnum(title) == title && NoDoubleDash(title)
  {
  }

  /** Lower-casing what collapsing left of a dashed title leaves only
      slug characters. */
  lemma LowerSlugChars(dashed: string, collapsed: string)
    requires forall k :: 0 <= k < |dashed| ==> IsAsciiAlnum(dashed[k]) || dashed[k] == '-'
    requires forall c :: c in collapsed ==> c in dashed
    ensures forall k :: 0 <= k < |collapsed| ==> IsSlugChar(Lower(collapsed)[k])
  {
    forall k | 0 <= k < |collapsed| ensures IsSlugChar(Lower(collapsed)[k]) {
      assert collapsed[k] in dashed;
    }
  }

  /** The sanitized title holds exactly the title's letters and digits, in
      order and lower-cased, separated by single dashes. */
  lemma SanitizeKeepsAlnum(title: string)
    ensures Filter(SanitizeTitle(title), IsAsciiAlnum) == Lower(Filter(title, IsAsciiAlnum))
  {
    var dashed := DashNonAlnum(title);
    DashKeepsAlnum(title);
    CollapseKeepsNonDashes(dashed, IsAsciiAlnum);
    LowerKeepsAlnum(CollapseDashes(dashed));
  }

  /** Between an alphanumeric end and an alphanumeric start, a run of
      other characters becomes exactly one dash, and the two sides are
      sanitized on their own. */
  lemma SanitizeSplit(a: string, m: string, b: string)
    requires a == [] || IsAsciiAlnum(a[|a| - 1])
    requires m != [] && forall k :: 0 <= k < |m| ==> !IsAsciiAlnum(m[k])
    requires b == [] || IsAsciiAlnum(b[0])
    ensures SanitizeTitle(a + m + b) == SanitizeTitle(a) + "-" + SanitizeTitle(b)
  {
    SanitizeSteps(a + m + b);
    SanitizeSteps(a);
    SanitizeSteps(b);
    DashAround(a, m, b);
  }

  /** What sanitizing computes, step by step. */
  lemma SanitizeSteps(title: string)
    ensures SanitizeTitle(title) == Lower(CollapseDashes(DashNonAlnum(title)))
  {
  }

  lemma DashAround(a: string, m: string, b: string)
    requires a == [] || IsAsciiAlnum(a[|a| - 1])
    requires m != [] && forall k :: 0 <= k < |m| ==> !IsAsciiAlnum(m[k])
    requires b == [] || IsAsciiAlnum(b[0])
    ensures Lower(CollapseDashes(DashNonAlnum(a + m + b)))
         == Lower(CollapseDashes(DashNonAlnum(a))) + "-" + Lower(CollapseDashes(DashNonAlnum(b)))
  {
    var da, dm, db := DashNonAlnum(a), DashNonAlnum(m), DashNonAlnum(b);
    assert DashNonAlnum(a + m + b) == da + (dm + db) by {
      DashAppend(a, m + b);
      DashAppend(m, b);
      assert a + m + b == a + (m + b);
    }
    assert forall k :: 0 <= k < |dm| ==> dm[k] == '-';
    assert da == [] || da[|da| - 1] != '-';
    assert db == [] || db[0] != '-';
    CollapseAround(da, dm, db);
    LowerDashBetween(CollapseDashes(da), CollapseDashes(db));
  }

  lemma LowerDashBetween(x: string, y: string)
    ensures Lower(x + ("-" + y)) == Lower(x) + "-" + Lower(y)
  {
    LowerAppend(x, "-" + y);
    LowerAppend("-", y);
    assert Lower("-") == "-";
  }

  /** A run of dashes between two non-dash ends collapses to one dash. */
  lemma CollapseAround(x: string, d: string, y: string)
    requires x == [] || x[|x| - 1] != '-'
    requires d != [] && forall k :: 0 <= k < |d| ==> d[k] == '-'
    requires y == [] || y[0] != '-'
    ensures CollapseDashes(x + (d + y)) == CollapseDashes(x) + ("-" + CollapseDashes(y))
  {
    CollapseSplit(x, d + y);
    CollapseSplit(d, y);
    CollapseDashRun(d);
  }

  /** Dashing works character by character. */
  lemma DashAppend(x: string, y: string)
    ensures DashNonAlnum(x + y) == DashNonAlnum(x) + DashNonAlnum(y)
  {
  }

  /** Sanitizing an already sanitized title changes nothing. */
  lemma SanitizeIdempotent(title: string)
    ensures SanitizeTitle(SanitizeTitle(title)) == SanitizeTitle(title)
  {
    var r := SanitizeTitle(title);
    SlugFixed(r);
    assert SanitizeTitle(r) == Lower(CollapseDashes(DashNonAlnum(r)));
  }

  /** Each step of sanitizing leaves a string of slug characters without a
      double dash unchanged. */
  lemma SlugFixed(r: string)
    requires forall k :: 0 <= k < |r| ==> IsSlugChar(r[k])
    requires NoDoubleDash(r)
    ensures DashNonAlnum(r) == r && CollapseDashes(r) == r && Lower(r) == r
  {
    assert forall k :: 0 <= k < |r| ==> DashNonAlnum(r)[k] == r[k];
    assert forall k :: 0 <= k < |r| ==> Lower(r)[k] == r[k];
  }

  /** The download's file name: sanitized title, lower-cased source host and
      date, separated by dashes, with the `.md` extension. */
  function Filename(title: string, source: string, date: string): string {
    SanitizeTitle(title) + "-" + Lower(source) + "-" + date + ".md"
  }

  /** The file name starts with the sanitized title and a dash, carries the
      lower-cased host after it, and ends with the date and `.md`. */
  lemma FilenameLayout(title: string, source: string, date: string)
    ensures var name := Filename(title, source, date);
      && |name| == |SanitizeTitle(title)| + |source| + |date| + 5
      && SanitizeTitle(title) + "-" <= name
      && name[|SanitizeTitle(title)| + 1..|SanitizeTitle(title)| + 1 + |source|] == Lower(source)
      && name[|name| - 3 - |date|..|name| - 3] == date
      && name[|name| - 3..] == ".md"
  {
    NameParts(SanitizeTitle(title), Lower(source), date);
  }

  lemma NameParts(t: string, host: string, date: string)
    ensures var name := t + "-" + host + "-" + date + ".md";
      && |name| == |t| + |host| + |date| + 5
      && t + "-" <= name
      && name[|t| + 1..|t| + 1 + |host|] == host
      && name[|name| - 3 - |date|..|name| - 3] == date
      && name[|name| - 3..] == ".md"
  {
    var name := t + "-" + host + "-" + date + ".md";
    assert name == (t + "-") + (host + "-" + date + ".md");
    assert name[|t| + 1..] == host + "-" + date + ".md";
  }

  /** A title that ends in punctuation keeps a trailing dash, so the file
      name has a double dash where title and host meet. */
  lemma FilenameDoubleDash(title: string, source: string, date: string)
    requires title != "" && !IsAsciiAlnum(title[|title| - 1])
    ensures var i := |SanitizeTitle(title)| - 1;
      Filename(title, source, date)[i..i + 2] == "--"
  {
  }

  /** The file name for the title "My Title!!" from Example.COM. */
  lemma FilenameExample()
    ensures Filename("My Title!!", "Example.COM", "2024-01-01") == "my-title--example.com-2024-01-01.md"
  {
    SanitizeExample();
    LowerHostExample();
    var name := Filename("My Title!!", "Example.COM", "2024-01-01");
    assert name == "my-title-" + "-" + "example.com" + "-" + "2024-01-01" + ".md";
    FilenameExampleText(name);
  }

  lemma FilenameExampleText(name: string)
    requires name == "my-title-" + "-" + "example.com" + "-" + "2024-01-01" + ".md"
    ensures name == "my-title--example.com-2024-01-01.md"
  {
    assert "my-title-" + "-" == "my-title--";
    assert "my-title--" + "example.com" == "my-title--example.com";
    assert "my-title--example.com" + "-" == "my-title--example.com-";
    assert "my-title--example.com-" + "2024-01-01" == "my-title--example.com-2024-01-01";
  }

  lemma SanitizeExample()
    ensures SanitizeTitle("My Title!!") == "my-title-"
  {
    DashExample();
    CollapseExample();
    LowerTitleExample();
    assert SanitizeTitle("My Title!!") == Lower(CollapseDashes(DashNonAlnum("My Title!!")));
  }

  lemma LowerTitleExample()
    ensures Lower("My-Title-") == "my-title-"
  {
  }

  lemma LowerHostExample()
    ensures Lower("Example.COM") == "example.com"
  {
  }

  lemma DashExample()
    ensures DashNonAlnum("My Title!!") == "My-Title--"
  {
  }

  lemma CollapseExample()
    ensures CollapseDashes("My-Title--") == "My-Title-"
  {
    assert "My-Title--" == "My-Title-" + ['-'];
    CollapseTrailingDash("My-Title-");
    NoDoubleDashExample();
  }

  lemma NoDoubleDashExample()
    ensures NoDoubleDash("My-Title-")
  {
  }

  /** A dash after a trailing dash is absorbed. */
  lemma {:induction false} CollapseTrailingDash(s: string)
    requires s != [] && s[|s| - 1] == '-'
    ensures CollapseDashes(s + ['-']) == CollapseDashes(s)
  {
    if |s| > 1 {
      var t := s + ['-'];
      assert t[0] == s[0] && t[1] == s[1] && t[1..] == s[1..] + ['-'];
      CollapseTrailingDash(s[1..]);
    }
  }
}
