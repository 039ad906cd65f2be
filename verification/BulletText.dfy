// Bullet lists in raw text, said of the text alone: what white space is, what a bullet line
// is, where a section begins and where its list ends (app/guardrails/editable_config.py and
// the regular expression and string methods it uses). BulletLens computes exactly this.
module BulletText {
  import opened Wrappers
  import opened BulletLens

  // ----- White space -----

  // The code points Python counts as white space.
  const WHITE: set<int> := {
    0x9, 0xa, 0xb, 0xc, 0xd, 0x1c, 0x1d, 0x1e, 0x1f, 0x20, 0x85, 0xa0, 0x1680,
    0x2000, 0x2001, 0x2002, 0x2003, 0x2004, 0x2005, 0x2006, 0x2007, 0x2008, 0x2009, 0x200a,
    0x2028, 0x2029, 0x202f, 0x205f, 0x3000}

  ghost predicate White(c: char) {
    c as int in WHITE
  }

  lemma SpaceIsWhite(c: char)
    ensures IsSpace(c) <==> White(c)
  {
  }

  // `out` is `s` without its trailing white space.
  ghost predicate TrimmedEnd(s: string, out: string) {
    && |out| <= |s| && s[..|out|] == out
    && (forall k :: |out| <= k < |s| ==> White(s[k]))
    && (out != "" ==> !White(out[|out| - 1]))
  }

  // Everything around s[i..j] is white, and neither its first nor its last character is.
  ghost predicate TrimsTo(s: string, i: int, j: int)
    requires 0 <= i <= j <= |s|
  {
    && (forall k :: 0 <= k < i ==> White(s[k]))
    && (forall k :: j <= k < |s| ==> White(s[k]))
    && (i < j ==> !White(s[i]) && !White(s[j - 1]))
  }

  // `out` is `s` without white space at either end.
  ghost predicate Trimmed(s: string, out: string) {
    exists i, j | 0 <= i <= j <= |s| :: TrimsTo(s, i, j) && out == s[i..j]
  }

  lemma TrimsToOnce(s: string, i: int, j: int, k: int, l: int)
    requires 0 <= i <= j <= |s| && 0 <= k <= l <= |s| && TrimsTo(s, i, j) && TrimsTo(s, k, l)
    ensures i < j ==> k <= i && j <= l
    ensures i < j ==> k < l
  {
    hide White;
  }

  // There is only one way to trim.
  lemma TrimmedUnique(s: string, a: string, b: string)
    requires Trimmed(s, a) && Trimmed(s, b)
    ensures a == b
  {
    hide TrimsTo;
    var i, j :| 0 <= i <= j <= |s| && TrimsTo(s, i, j) && a == s[i..j];
    var k, l :| 0 <= k <= l <= |s| && TrimsTo(s, k, l) && b == s[k..l];
    TrimsToOnce(s, i, j, k, l);
    TrimsToOnce(s, k, l, i, j);
  }

  lemma {:induction false} RStripTrims(s: string)
    ensures TrimmedEnd(s, RStrip(s))
  {
    if s != "" {
      SpaceIsWhite(s[|s| - 1]);
      if IsSpace(s[|s| - 1]) {
        RStripTrims(s[..|s| - 1]);
      }
    }
  }

  lemma TrimmedEndUnique(s: string, a: string, b: string)
    requires TrimmedEnd(s, a) && TrimmedEnd(s, b)
    ensures a == b
  {
    TrimmedEndReaches(s, a, b);
    TrimmedEndReaches(s, b, a);
  }

  lemma TrimmedEndReaches(s: string, a: string, b: string)
    requires TrimmedEnd(s, a) && TrimmedEnd(s, b)
    ensures |a| >= |b|
  {
    if b != "" {
      assert b[|b| - 1] == s[..|b|][|b| - 1] == s[|b| - 1];
    }
  }

  lemma RStripMeans(s: string, out: string)
    ensures RStrip(s) == out <==> TrimmedEnd(s, out)
  {
    RStripTrims(s);
    if TrimmedEnd(s, out) {
      TrimmedEndUnique(s, out, RStrip(s));
    }
  }

  // ----- Bullet lines -----

  // ^([ \t]*)-\s?(.*)$ with the item's trailing white space gone: indentation, a dash, one
  // white character if there is one, and the rest.
  ghost predicate IsBullet(line: string, indent: string, item: string) {
    && |indent| < |line| && line[..|indent|] == indent && line[|indent|] == '-'
    && (forall c <- indent :: c == ' ' || c == '\t')
    && var rest := line[|indent| + 1..];
       TrimmedEnd(if rest != "" && White(rest[0]) then rest[1..] else rest, item)
  }

  lemma {:induction false} IndentMeans(line: string, n: nat)
    requires n < |line| && !IsBlank(line[n]) && forall k :: 0 <= k < n ==> IsBlank(line[k])
    ensures IndentLength(line) == n
  {
    if n > 0 {
      IndentMeans(line[1..], n - 1);
    }
  }

  lemma BulletMeans(line: string, b: Bullet)
    ensures MatchBullet(line) == Some(b) <==> IsBullet(line, b.indent, b.item)
  {
    hide RStrip, TrimmedEnd;
    if MatchBullet(line) == Some(b) {
      var n := IndentLength(line);
      IndentFacts(line);
      assert b.indent == line[..n];
      AfterDash(line[n + 1..], b.item);
    }
    if IsBullet(line, b.indent, b.item) {
      var n := |b.indent|;
      forall k | 0 <= k < n
        ensures IsBlank(line[k])
      {
        assert line[k] == b.indent[k] && b.indent[k] in b.indent;
      }
      IndentMeans(line, n);
      AfterDash(line[n + 1..], b.item);
    }
  }

  lemma AfterDash(rest: string, item: string)
    ensures RStrip(if rest != "" && IsSpace(rest[0]) then rest[1..] else rest) == item
       <==> TrimmedEnd(if rest != "" && White(rest[0]) then rest[1..] else rest, item)
  {
    if rest != "" {
      SpaceIsWhite(rest[0]);
    }
    RStripMeans(if rest != "" && IsSpace(rest[0]) then rest[1..] else rest, item);
  }

  // ----- Lines -----

  // The first n characters of t are this line, with its newline unless t ends there.
  ghost predicate IsLine(t: string, line: string, n: nat) {
    && '\n' !in line && 0 < n <= |t|
    && (t[..n] == line + "\n" || (n == |t| && t == line))
  }

  lemma FirstLineIsLine(t: string)
    requires t != ""
    ensures IsLine(t, FirstLine(t), LineLength(t))
  {
    FirstLineFacts(t);
    LastOfFirstLine(t);
    var n := LineLength(t);
    if t[n - 1] == '\n' {
      assert t[..n] == t[..n - 1] + "\n";
    } else {
      assert t[..n] == t;
    }
  }

  lemma LastOfFirstLine(t: string)
    requires t != ""
    ensures LineLength(t) == |t| || t[LineLength(t) - 1] == '\n'
  {
    FirstLineFacts(t);
  }

  lemma LineIsFirstLine(t: string, line: string, n: nat)
    requires IsLine(t, line, n)
    ensures LineLength(t) == n && FirstLine(t) == line
  {
    if t[..n] == line + "\n" {
      assert t == line + "\n" + t[n..];
      LineOf(line, t[n..]);
    } else {
      LineOf(line, "");
    }
  }

  // ----- The list -----

  // t begins with a list of exactly these items, in n characters, all indented like this;
  // the line that follows, if there is one, does not belong to it.
  ghost predicate ListAt(t: string, indent: string, items: seq<string>, n: nat)
    decreases |items|
  {
    if items == [] then n == 0 && forall line: string, k: nat, item: string | IsLine(t, line, k) :: !IsBullet(line, indent, item)
    else
      exists line: string, k: nat | IsLine(t, line, k) ::
        k <= n && IsBullet(line, indent, items[0]) && ListAt(t[k..], indent, items[1..], n - k)
  }

  lemma {:induction false} ReadIsList(t: string, indent: string)
    ensures ListAt(t, indent, ReadBlock(t, Some(indent)).items, ReadBlock(t, Some(indent)).length)
    decreases |t|
  {
    if Continues(t, Some(indent)) {
      hide ReadBlock, LineLength, FirstLine, IsBullet, MatchBullet, IsLine, ListAt;
      var n := LineLength(t);
      var m := MatchBullet(FirstLine(t)).value;
      ReadIsList(t[n..], indent);
      FirstLineIsLine(t);
      BulletMeans(FirstLine(t), m);
      ReadBlockStep(t, Some(indent));
      var b := ReadBlock(t[n..], Some(indent));
      ListGrows(t, FirstLine(t), n, indent, m.item, b.items, b.length);
    } else {
      hide IsBullet, LineLength, FirstLine, MatchBullet;
      forall line: string, k: nat, item: string | IsLine(t, line, k)
        ensures !IsBullet(line, indent, item)
      {
        LineIsFirstLine(t, line, k);
        BulletMeans(line, Bullet(indent, item));
      }
    }
  }

  lemma ListGrows(t: string, line: string, k: nat, indent: string, item: string, items: seq<string>, n: nat)
    requires IsLine(t, line, k) && IsBullet(line, indent, item) && ListAt(t[k..], indent, items, n)
    ensures ListAt(t, indent, [item] + items, k + n)
  {
    hide IsBullet;
    assert ([item] + items)[1..] == items;
  }

  // Reading a block at the front of t, the first line fixing the indentation.
  lemma ReadIsListOfFirst(t: string)
    requires Continues(t, None)
    ensures ListAt(t, MatchBullet(FirstLine(t)).value.indent, ReadBlock(t, None).items, ReadBlock(t, None).length)
  {
    var indent := MatchBullet(FirstLine(t)).value.indent;
    assert Continues(t, Some(indent));
    ReadBlockStep(t, None);
    ReadBlockStep(t, Some(indent));
    ReadIsList(t, indent);
  }

  // t does not begin with a bullet line.
  ghost predicate NoListAt(t: string) {
    forall line: string, k: nat, indent: string, item: string | IsLine(t, line, k) :: !IsBullet(line, indent, item)
  }

  lemma ContinuesMeans(t: string)
    ensures Continues(t, None) <==> !NoListAt(t)
  {
    if Continues(t, None) {
      var m := MatchBullet(FirstLine(t)).value;
      FirstLineIsLine(t);
      BulletMeans(FirstLine(t), m);
      assert IsBullet(FirstLine(t), m.indent, m.item);
    } else {
      forall line: string, k: nat, indent: string, item: string | IsLine(t, line, k)
        ensures !IsBullet(line, indent, item)
      {
        LineIsFirstLine(t, line, k);
        BulletMeans(line, Bullet(indent, item));
      }
    }
  }

  // ----- Where a section begins -----

  ghost predicate Here(t: string, sub: string, i: nat) {
    i + |sub| <= |t| && t[i..i + |sub|] == sub
  }

  // The first occurrence of sub at or behind `from`.
  ghost predicate FirstHere(t: string, sub: string, from: nat, i: nat) {
    from <= i && Here(t, sub, i) && forall j: nat :: from <= j < i ==> !Here(t, sub, j)
  }

  ghost predicate Nowhere(t: string, sub: string, from: nat) {
    forall j: nat :: from <= j ==> !Here(t, sub, j)
  }

  // Behind the line of the first header at or behind the first anchor, or at the end of the text.
  ghost predicate BeginsAt(t: string, anchor: string, header: string, n: nat) {
    exists a: nat, h: nat | FirstHere(t, anchor, 0, a) && FirstHere(t, header, a, h) ::
      if Nowhere(t, "\n", h) then n == |t| else n > 0 && FirstHere(t, "\n", h, n - 1)
  }

  lemma FindMeans(t: string, sub: string, from: nat)
    requires from <= |t|
    ensures Find(t, sub, from).None? <==> Nowhere(t, sub, from)
    ensures Find(t, sub, from).Some? ==> FirstHere(t, sub, from, Find(t, sub, from).value)
  {
    hide Find;
    assert forall i: nat :: Here(t, sub, i) <==> OccursAt(t, sub, i);
    var r := Find(t, sub, from);
    assert r.Some? ==> Here(t, sub, r.value);
  }

  lemma FirstHereUnique(t: string, sub: string, from: nat, i: nat, j: nat)
    requires FirstHere(t, sub, from, i) && FirstHere(t, sub, from, j)
    ensures i == j
  {
    hide Here;
  }

  lemma BeginsMeans(t: string, s: Section, n: nat)
    ensures BeginsAt(t, s.anchor, s.header, n) <==> AfterHeader(t, s, 0) == Some(n)
  {
    hide Find, Here, FirstHere, Nowhere;
    forall sub, from: nat | from <= |t|
      ensures Find(t, sub, from).None? <==> Nowhere(t, sub, from)
      ensures Find(t, sub, from).Some? ==> FirstHere(t, sub, from, Find(t, sub, from).value)
    {
      FindMeans(t, sub, from);
    }
    if BeginsAt(t, s.anchor, s.header, n) {
      var a: nat, h: nat :| FirstHere(t, s.anchor, 0, a) && FirstHere(t, s.header, a, h)
        && if Nowhere(t, "\n", h) then n == |t| else n > 0 && FirstHere(t, "\n", h, n - 1);
      FindIsFirst(t, s.anchor, 0, a);
      FindIsFirst(t, s.header, a, h);
      if !Nowhere(t, "\n", h) {
        FindIsFirst(t, "\n", h, n - 1);
      }
    }
  }

  lemma FindIsFirst(t: string, sub: string, from: nat, i: nat)
    requires FirstHere(t, sub, from, i)
    ensures from <= |t| && i <= |t| && Find(t, sub, from) == Some(i)
  {
    FindMeans(t, sub, from);
    assert Find(t, sub, from).Some?;
    FirstHereUnique(t, sub, from, i, Find(t, sub, from).value);
  }

  // Whether a section is there, and why not if it is not.
  lemma SectionMeans(t: string, s: Section)
    ensures Find(t, s.anchor, 0).None? <==> Nowhere(t, s.anchor, 0)
    ensures (exists a: nat | FirstHere(t, s.anchor, 0, a) :: Nowhere(t, s.header, a))
       <==> Find(t, s.anchor, 0).Some? && Find(t, s.header, Find(t, s.anchor, 0).value).None?
    ensures (exists n: nat | n <= |t| && BeginsAt(t, s.anchor, s.header, n) :: NoListAt(t[n..]))
       <==> AfterHeader(t, s, 0).Some? && !Located(t, s)
  {
    hide Find, Here, Nowhere, BeginsAt, NoListAt, AfterHeader, Continues;
    FindMeans(t, s.anchor, 0);
    var task := Find(t, s.anchor, 0);
    if task.Some? {
      FindMeans(t, s.header, task.value);
    }
    forall a: nat | FirstHere(t, s.anchor, 0, a)
      ensures task == Some(a)
    {
      FindIsFirst(t, s.anchor, 0, a);
    }
    forall n: nat
      ensures BeginsAt(t, s.anchor, s.header, n) <==> AfterHeader(t, s, 0) == Some(n)
    {
      BeginsMeans(t, s, n);
    }
    if AfterHeader(t, s, 0).Some? {
      ContinuesMeans(t[AfterHeader(t, s, 0).value..]);
    }
  }

  // ----- What is printed -----

  // One line per item: the indentation, a dash, a space and the item.
  ghost predicate Lists(block: string, indent: string, items: seq<string>)
    decreases |items|
  {
    if items == [] then block == ""
    else
      var line := indent + "- " + items[0] + "\n";
      line <= block && Lists(block[|line|..], indent, items[1..])
  }

  lemma {:induction false} PrintLists(indent: string, items: seq<string>)
    ensures Lists(Print(indent, items), indent, items)
  {
    if items != [] {
      PrintLists(indent, items[1..]);
      assert Print(indent, items)[|PrintItem(indent, items[0])|..] == Print(indent, items[1..]);
    }
  }
}
