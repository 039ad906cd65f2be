// Bullet lists inside raw configuration text (app/guardrails/editable_config.py), seen as a
// lens: `Get` reads every section's items, `Put` replaces them. Both work through the text
// from front to back, each section being searched in what follows the one before it.
module BulletLens {
  import opened Wrappers

  // ----- Characters and lines -----

  // str.isspace, and \s of the re module.
  predicate IsSpace(c: char) {
    || c == ' ' || '\t' <= c <= '\r' || '\U{1c}' <= c <= '\U{1f}' || c == '\U{85}' || c == '\U{a0}'
    || c == '\U{1680}' || '\U{2000}' <= c <= '\U{200a}' || c == '\U{2028}' || c == '\U{2029}'
    || c == '\U{202f}' || c == '\U{205f}' || c == '\U{3000}'
  }

  predicate IsBlank(c: char) {
    c == ' ' || c == '\t'
  }

  function RStrip(s: string): string {
    if s != "" && IsSpace(s[|s| - 1]) then RStrip(s[..|s| - 1]) else s
  }

  // The length of the first line, its newline included.
  function LineLength(t: string): (n: nat)
    ensures n <= |t|
    ensures t != "" ==> n > 0
  {
    if t == "" then 0 else if t[0] == '\n' then 1 else 1 + LineLength(t[1..])
  }

  // The first line without its newline.
  function FirstLine(t: string): string {
    var n := LineLength(t);
    if n > 0 && t[n - 1] == '\n' then t[..n - 1] else t[..n]
  }

  function IndentLength(line: string): (n: nat)
    ensures n <= |line|
  {
    if line == "" || !IsBlank(line[0]) then 0 else 1 + IndentLength(line[1..])
  }

  datatype Bullet = Bullet(indent: string, item: string)

  // ^([ \t]*)-\s?(.*)$, with the item's trailing white space removed.
  function MatchBullet(line: string): Option<Bullet> {
    var n := IndentLength(line);
    if n < |line| && line[n] == '-' then
      var rest := line[n + 1..];
      Some(Bullet(line[..n], RStrip(if rest != "" && IsSpace(rest[0]) then rest[1..] else rest)))
    else None
  }

  // ----- Reading one block -----

  datatype Block = Block(items: seq<string>, length: nat)

  predicate Continues(t: string, indent: Option<string>) {
    && t != ""
    && MatchBullet(FirstLine(t)).Some?
    && (indent.Some? ==> MatchBullet(FirstLine(t)).value.indent == indent.value)
  }

  // The run of bullet lines at the front of t, all indented like the first one.
  function ReadBlock(t: string, indent: Option<string>): (b: Block)
    ensures b.length <= |t|
    ensures b.items == [] <==> !Continues(t, indent)
    ensures b.items == [] ==> b.length == 0
    decreases |t|
  {
    if Continues(t, indent) then
      var m := MatchBullet(FirstLine(t)).value;
      var b := ReadBlock(t[LineLength(t)..], Some(m.indent));
      Block([m.item] + b.items, LineLength(t) + b.length)
    else Block([], 0)
  }

  function PrintItem(indent: string, item: string): (line: string)
    ensures line != ""
  {
    indent + "- " + item + "\n"
  }

  function Print(indent: string, items: seq<string>): string {
    if items == [] then "" else PrintItem(indent, items[0]) + Print(indent, items[1..])
  }

  // ----- Locating a section -----

  datatype Section = Section(field: string, anchor: string, header: string)

  predicate OccursAt(t: string, sub: string, i: nat) {
    i + |sub| <= |t| && t[i..i + |sub|] == sub
  }

  // str.find
  function Find(t: string, sub: string, start: nat): (r: Option<nat>)
    requires start <= |t|
    ensures r.Some? ==> start <= r.value && OccursAt(t, sub, r.value) && forall i :: start <= i < r.value ==> !OccursAt(t, sub, i)
    ensures r.None? ==> forall i :: start <= i <= |t| ==> !OccursAt(t, sub, i)
    decreases |t| - start
  {
    if OccursAt(t, sub, start) then Some(start)
    else if start == |t| then None
    else Find(t, sub, start + 1)
  }

  // Where the line after the section's header begins, the anchor being searched from `start`.
  function AfterHeader(t: string, s: Section, start: nat): (r: Option<nat>)
    requires start <= |t|
    ensures r.Some? ==> start <= r.value <= |t|
  {
    var task := Find(t, s.anchor, start);
    if task.None? then None
    else
      var header := Find(t, s.header, task.value);
      if header.None? then None
      else
        var newline := Find(t, "\n", header.value);
        if newline.Some? then Some(newline.value + 1) else Some(|t|)
  }

  predicate Located(t: string, s: Section) {
    AfterHeader(t, s, 0).Some? && Continues(t[AfterHeader(t, s, 0).value..], None)
  }

  function Start(t: string, s: Section): (n: nat)
    requires Located(t, s)
    ensures n <= |t|
  {
    AfterHeader(t, s, 0).value
  }

  function BlockOf(t: string, s: Section): Block
    requires Located(t, s)
  {
    ReadBlock(t[Start(t, s)..], None)
  }

  function End(t: string, s: Section): (n: nat)
    requires Located(t, s)
    ensures Start(t, s) <= n <= |t|
  {
    Start(t, s) + BlockOf(t, s).length
  }

  function IndentOf(t: string, s: Section): string
    requires Located(t, s)
  {
    MatchBullet(FirstLine(t[Start(t, s)..])).value.indent
  }

  // ----- The lens -----

  // Every section is found, each after the block of the one before it.
  predicate Found(t: string, ss: seq<Section>) {
    ss == [] || (Located(t, ss[0]) && Found(t[End(t, ss[0])..], ss[1..]))
  }

  function Get(t: string, ss: seq<Section>): (r: seq<seq<string>>)
    requires Found(t, ss)
    ensures |r| == |ss|
  {
    if ss == [] then [] else [BlockOf(t, ss[0]).items] + Get(t[End(t, ss[0])..], ss[1..])
  }

  function Put(t: string, ss: seq<Section>, items: seq<seq<string>>): string
    requires Found(t, ss) && |items| == |ss|
  {
    if ss == [] then t
    else t[..Start(t, ss[0])] + Print(IndentOf(t, ss[0]), items[0])
         + Put(t[End(t, ss[0])..], ss[1..], items[1..])
  }

  // The text outside the blocks, piece by piece, and the blocks' own text and indentation.
  function Outside(t: string, ss: seq<Section>): seq<string>
    requires Found(t, ss)
  {
    if ss == [] then [t] else [t[..Start(t, ss[0])]] + Outside(t[End(t, ss[0])..], ss[1..])
  }

  function Inside(t: string, ss: seq<Section>): (r: seq<string>)
    requires Found(t, ss)
    ensures |r| == |ss|
  {
    if ss == [] then []
    else [t[Start(t, ss[0])..End(t, ss[0])]] + Inside(t[End(t, ss[0])..], ss[1..])
  }

  function Indents(t: string, ss: seq<Section>): (r: seq<string>)
    requires Found(t, ss)
    ensures |r| == |ss|
  {
    if ss == [] then [] else [IndentOf(t, ss[0])] + Indents(t[End(t, ss[0])..], ss[1..])
  }

  // What a bullet line can carry and give back: one line, no trailing white space.
  predicate Clean(item: string) {
    '\n' !in item && RStrip(item) == item
  }

  predicate AllClean(items: seq<string>) {
    items != [] && forall item <- items :: Clean(item)
  }

  // Anchors and headers lie within one line.
  predicate SingleLine(s: Section) {
    '\n' !in s.anchor && '\n' !in s.header
  }

  // ----- Lines -----

  lemma {:induction false} LineOf(line: string, rest: string)
    requires '\n' !in line
    ensures LineLength(line + "\n" + rest) == |line| + 1
    ensures FirstLine(line + "\n" + rest) == line
    ensures LineLength(line) == |line| && FirstLine(line) == line
  {
    var t := line + "\n" + rest;
    if line != "" {
      LineOf(line[1..], rest);
      assert t[1..] == line[1..] + "\n" + rest;
      assert line[0] in line;
    }
    assert t[..|line|] == line;
    assert line != "" ==> line[|line| - 1] in line;
  }

  // The first line depends on nothing behind its newline.
  lemma {:induction false} LineLengthIsLocal(t: string, u: string, n: nat)
    requires n <= |t| && n <= |u| && t[..n] == u[..n]
    requires exists i :: 0 <= i < n && t[i] == '\n'
    ensures LineLength(t) == LineLength(u) <= n
  {
    assert t[0] == t[..n][0] == u[..n][0] == u[0];
    if t[0] != '\n' {
      assert t[1..][..n - 1] == t[..n][1..] == u[..n][1..] == u[1..][..n - 1];
      var i :| 0 <= i < n && t[i] == '\n';
      assert t[1..][i - 1] == '\n';
      LineLengthIsLocal(t[1..], u[1..], n - 1);
    }
  }

  lemma FirstLineIsLocal(t: string, u: string, n: nat)
    requires n <= |t| && n <= |u| && t[..n] == u[..n]
    requires exists i :: 0 <= i < n && t[i] == '\n'
    ensures FirstLine(t) == FirstLine(u)
  {
    LineLengthIsLocal(t, u, n);
    hide LineLength;
    var m := LineLength(t);
    assert t[..m] == t[..n][..m] == u[..n][..m] == u[..m];
    assert m > 0 ==> t[..m - 1] == t[..m][..m - 1] == u[..m][..m - 1] == u[..m - 1];
    assert m > 0 ==> t[m - 1] == t[..m][m - 1] == u[..m][m - 1] == u[m - 1];
  }

  lemma {:induction false} FirstLineFacts(t: string)
    ensures '\n' !in FirstLine(t)
    ensures LineLength(t) < |t| ==> t[LineLength(t) - 1] == '\n'
    ensures forall i :: 0 <= i < LineLength(t) - 1 ==> t[i] != '\n'
  {
    if t != "" && t[0] != '\n' {
      FirstLineFacts(t[1..]);
      assert forall i :: 1 <= i < |t| ==> t[i] == t[1..][i - 1];
    }
  }

  lemma {:induction false} IndentFacts(line: string)
    ensures forall c <- line[..IndentLength(line)] :: IsBlank(c)
  {
    if line != "" && IsBlank(line[0]) {
      IndentFacts(line[1..]);
      assert line[..IndentLength(line)] == [line[0]] + line[1..][..IndentLength(line[1..])];
    }
  }

  lemma {:induction false} IndentOfPrinted(indent: string, rest: string)
    requires forall c <- indent :: IsBlank(c)
    requires rest != "" && !IsBlank(rest[0])
    ensures IndentLength(indent + rest) == |indent|
  {
    if indent == "" {
      assert indent + rest == rest;
    } else {
      assert (indent + rest)[1..] == indent[1..] + rest;
      IndentOfPrinted(indent[1..], rest);
    }
  }

  lemma {:induction false} RStripFacts(s: string)
    ensures RStrip(RStrip(s)) == RStrip(s)
    ensures forall c <- RStrip(s) :: c in s
  {
    if s != "" && IsSpace(s[|s| - 1]) {
      RStripFacts(s[..|s| - 1]);
    }
  }

  // A printed item reads back as itself.
  lemma PrintedItemReadsBack(indent: string, item: string, rest: string)
    requires (forall c <- indent :: IsBlank(c)) && Clean(item)
    ensures LineLength(PrintItem(indent, item) + rest) == |PrintItem(indent, item)|
    ensures MatchBullet(FirstLine(PrintItem(indent, item) + rest)) == Some(Bullet(indent, item))
  {
    var line := indent + "- " + item;
    assert PrintItem(indent, item) + rest == line + "\n" + rest;
    LineOf(line, rest);
    IndentOfPrinted(indent, "- " + item);
    assert line == indent + ("- " + item);
    assert line[..|indent|] == indent && line[|indent| + 1..] == " " + item;
  }

  lemma ReadBlockStep(t: string, indent: Option<string>)
    requires Continues(t, indent)
    ensures var m := MatchBullet(FirstLine(t)).value;
            var b := ReadBlock(t[LineLength(t)..], Some(m.indent));
            ReadBlock(t, indent) == Block([m.item] + b.items, LineLength(t) + b.length)
  {
    hide LineLength, FirstLine, MatchBullet, Continues;
  }

  lemma {:induction false} PrintedBlockReadsBack(indent: string, items: seq<string>, rest: string)
    requires (forall c <- indent :: IsBlank(c)) && (forall item <- items :: Clean(item))
    requires !Continues(rest, Some(indent))
    ensures ReadBlock(Print(indent, items) + rest, Some(indent)) == Block(items, |Print(indent, items)|)
  {
    hide LineLength, FirstLine, MatchBullet, PrintItem, Clean, ReadBlock;
    if items == [] {
      assert Print(indent, items) + rest == rest;
    } else {
      var first, others := PrintItem(indent, items[0]), Print(indent, items[1..]);
      var t := Print(indent, items) + rest;
      assert t == first + (others + rest);
      PrintedItemReadsBack(indent, items[0], others + rest);
      PrintedBlockReadsBack(indent, items[1..], rest);
      ReadBlockStep(t, Some(indent));
      assert t[|first|..] == others + rest;
      assert items == [items[0]] + items[1..];
    }
  }

  // What is read is clean, and where reading stops the block does not go on.
  lemma {:induction false} ReadBlockFacts(t: string, indent: Option<string>)
    ensures forall item <- ReadBlock(t, indent).items :: Clean(item)
    ensures Continues(t, indent) ==>
              && (forall c <- MatchBullet(FirstLine(t)).value.indent :: IsBlank(c))
              && !Continues(t[ReadBlock(t, indent).length..], Some(MatchBullet(FirstLine(t)).value.indent))
    decreases |t|
  {
    hide LineLength, FirstLine, IndentLength, RStrip;
    if Continues(t, indent) {
      var line := FirstLine(t);
      var m := MatchBullet(line).value;
      var n := LineLength(t);
      FirstLineFacts(t);
      IndentFacts(line);
      var rest := line[IndentLength(line) + 1..];
      RStripFacts(if rest != "" && IsSpace(rest[0]) then rest[1..] else rest);
      ReadBlockFacts(t[n..], Some(m.indent));
      var b := ReadBlock(t[n..], Some(m.indent));
      assert t[ReadBlock(t, indent).length..] == t[n..][b.length..];
    }
  }

  // ----- Locality: where a section starts depends only on the text in front of it -----

  lemma FindIsLocal(t: string, u: string, sub: string, start: nat, n: nat)
    requires start <= n <= |t| && n <= |u| && t[..n] == u[..n]
    requires Find(t, sub, start).Some? && Find(t, sub, start).value + |sub| <= n
    ensures Find(u, sub, start) == Find(t, sub, start)
  {
    hide Find;
    var p := Find(t, sub, start).value;
    forall i | start <= i <= p
      ensures OccursAt(u, sub, i) <==> OccursAt(t, sub, i)
    {
      assert t[i..i + |sub|] == t[..n][i..i + |sub|] == u[..n][i..i + |sub|] == u[i..i + |sub|];
    }
  }

  // A newline found at or after a one-line string starts lies behind all of it.
  lemma OccurrenceEndsBefore(t: string, sub: string, i: nat, newline: nat)
    requires OccursAt(t, sub, i) && '\n' !in sub
    requires i <= newline < |t| && t[newline] == '\n'
    ensures i + |sub| <= newline
  {
    forall j | i <= j < i + |sub|
      ensures t[j] != '\n'
    {
      assert t[j] == t[i..i + |sub|][j - i];
    }
  }

  lemma StartIsLocal(t: string, u: string, s: Section)
    requires Located(t, s) && SingleLine(s)
    requires Start(t, s) <= |u| && u[..Start(t, s)] == t[..Start(t, s)]
    ensures Start(t, s) > 0 && t[Start(t, s) - 1] == '\n'
    ensures AfterHeader(u, s, 0) == Some(Start(t, s))
  {
    hide Find, LineLength, FirstLine, MatchBullet, ReadBlock;
    var n := Start(t, s);
    var task := Find(t, s.anchor, 0).value;
    var header := Find(t, s.header, task).value;
    var newline := Find(t, "\n", header).value;
    assert t[newline] == t[newline..newline + 1][0] == '\n';
    OccurrenceEndsBefore(t, s.anchor, task, newline);
    OccurrenceEndsBefore(t, s.header, header, newline);
    FindIsLocal(t, u, s.anchor, 0, n);
    FindIsLocal(t, u, s.header, task, n);
    FindIsLocal(t, u, "\n", header, n);
  }

  // What follows a block still ends it after later sections were replaced.
  lemma PutKeepsFirstLine(t: string, ss: seq<Section>, items: seq<seq<string>>, indent: string)
    requires Found(t, ss) && |items| == |ss| && (forall s <- ss :: SingleLine(s))
    requires !Continues(t, Some(indent))
    ensures !Continues(Put(t, ss, items), Some(indent))
  {
    if ss != [] {
      PutKeepsHead(t, ss, items);
      hide Put, Start, ReadBlock, Find, FirstLine, MatchBullet, Found, AfterHeader, Located;
      var n, u := Start(t, ss[0]), Put(t, ss, items);
      StartIsLocal(t, u, ss[0]);
      FirstLineIsLocal(t, u, n);
    } else {
      assert Put(t, ss, items) == t;
    }
  }

  // Everything before the first block stays.
  lemma PutKeepsHead(t: string, ss: seq<Section>, items: seq<seq<string>>)
    requires |items| == |ss|
    ensures ss != [] && Found(t, ss) ==>
              var n, u := Start(t, ss[0]), Put(t, ss, items);
              n <= |u| && u[..n] == t[..n]
  {
    hide ReadBlock, Find, AfterHeader, Print;
  }

  lemma PrintedFront(indent: string, items: seq<string>, rest: string)
    requires (forall c <- indent :: IsBlank(c)) && AllClean(items)
    requires !Continues(rest, Some(indent))
    ensures var w := Print(indent, items) + rest;
            && Continues(w, None) && MatchBullet(FirstLine(w)).value.indent == indent
            && ReadBlock(w, None) == Block(items, |Print(indent, items)|)
  {
    hide LineLength, FirstLine, MatchBullet, Clean;
    var w := Print(indent, items) + rest;
    var others := Print(indent, items[1..]) + rest;
    assert w == PrintItem(indent, items[0]) + others;
    assert items[0] in items;
    PrintedItemReadsBack(indent, items[0], others);
    PrintedBlockReadsBack(indent, items, rest);
    assert ReadBlock(w, None) == ReadBlock(w, Some(indent));
  }

  // Replacing one block: the section is found again in the same place, with the same
  // indentation, holding exactly the new items.
  ghost predicate Replaced(t: string, s: Section, items: seq<string>, rest: string, u: string)
    requires Located(t, s)
  {
    && Located(u, s)
    && Start(u, s) == Start(t, s)
    && IndentOf(u, s) == IndentOf(t, s)
    && BlockOf(u, s).items == items
    && u[..Start(u, s)] == t[..Start(t, s)]
    && u[Start(u, s)..End(u, s)] == Print(IndentOf(t, s), items)
    && u[End(u, s)..] == rest
  }

  lemma ReplacedBlock(t: string, s: Section, items: seq<string>, rest: string)
    requires Located(t, s) && SingleLine(s) && AllClean(items)
    requires !Continues(rest, Some(IndentOf(t, s)))
    ensures Replaced(t, s, items, rest, t[..Start(t, s)] + Print(IndentOf(t, s), items) + rest)
  {
    hide LineLength, FirstLine, MatchBullet, ReadBlock, Find, AfterHeader, Print, PrintItem;
    var n, indent := Start(t, s), IndentOf(t, s);
    var block := Print(indent, items);
    var u := t[..n] + block + rest;
    assert u[..n] == t[..n];
    StartIsLocal(t, u, s);
    ReadBlockFacts(t[n..], None);
    PrintedFront(indent, items, rest);
    assert u[n..] == block + rest;
    assert u[n..n + |block|] == block && u[n + |block|..] == rest;
  }

  // The block a section was read from stays ended by what follows it.
  lemma BlockEnds(t: string, s: Section)
    requires Located(t, s)
    ensures !Continues(t[End(t, s)..], Some(IndentOf(t, s)))
  {
    ReadBlockFacts(t[Start(t, s)..], None);
    assert t[End(t, s)..] == t[Start(t, s)..][BlockOf(t, s).length..];
  }

  // ----- The laws -----

  ghost predicate Printed(blocks: seq<string>, indents: seq<string>, items: seq<seq<string>>) {
    && |blocks| == |indents| == |items|
    && forall i :: 0 <= i < |blocks| ==> blocks[i] == Print(indents[i], items[i])
  }

  lemma PutReplaces(t: string, ss: seq<Section>, items: seq<seq<string>>)
    requires ss != [] && Found(t, ss) && |items| == |ss|
    requires (forall s <- ss :: SingleLine(s)) && AllClean(items[0])
    ensures Replaced(t, ss[0], items[0], Put(t[End(t, ss[0])..], ss[1..], items[1..]), Put(t, ss, items))
  {
    var rest := t[End(t, ss[0])..];
    BlockEnds(t, ss[0]);
    PutKeepsFirstLine(rest, ss[1..], items[1..], IndentOf(t, ss[0]));
    ReplacedBlock(t, ss[0], items[0], Put(rest, ss[1..], items[1..]));
  }

  // Put-get: re-reading gives back exactly the items put in, section by section.
  lemma {:induction false} PutGet(t: string, ss: seq<Section>, items: seq<seq<string>>)
    requires Found(t, ss) && |items| == |ss|
    requires (forall s <- ss :: SingleLine(s)) && (forall list <- items :: AllClean(list))
    ensures Found(Put(t, ss, items), ss)
    ensures Get(Put(t, ss, items), ss) == items
    decreases |ss|
  {
    hide LineLength, FirstLine, MatchBullet, ReadBlock, Find, AfterHeader, Start, End;
    if ss != [] {
      assert items[0] in items;
      PutReplaces(t, ss, items);
      PutGet(t[End(t, ss[0])..], ss[1..], items[1..]);
    }
  }

  // The frame: everything outside the blocks is as it was, and the blocks are the items
  // printed with the indentation they had.
  lemma {:induction false} PutFrame(t: string, ss: seq<Section>, items: seq<seq<string>>)
    requires Found(t, ss) && |items| == |ss|
    requires (forall s <- ss :: SingleLine(s)) && (forall list <- items :: AllClean(list))
    ensures Found(Put(t, ss, items), ss)
    ensures Outside(Put(t, ss, items), ss) == Outside(t, ss)
    ensures Indents(Put(t, ss, items), ss) == Indents(t, ss)
    ensures Printed(Inside(Put(t, ss, items), ss), Indents(t, ss), items)
    decreases |ss|
  {
    hide LineLength, FirstLine, MatchBullet, ReadBlock, Find, AfterHeader, Start, End;
    if ss != [] {
      assert items[0] in items;
      PutReplaces(t, ss, items);
      PutFrame(t[End(t, ss[0])..], ss[1..], items[1..]);
    }
  }

  // Put-put: a later edit leaves nothing of an earlier one behind.
  lemma {:induction false} PutPut(t: string, ss: seq<Section>, first: seq<seq<string>>, second: seq<seq<string>>)
    requires Found(t, ss) && |first| == |second| == |ss|
    requires (forall s <- ss :: SingleLine(s)) && (forall list <- first :: AllClean(list))
    ensures Found(Put(t, ss, first), ss)
    ensures Put(Put(t, ss, first), ss, second) == Put(t, ss, second)
    decreases |ss|
  {
    if ss != [] {
      assert first[0] in first;
      PutReplaces(t, ss, first);
      PutPut(t[End(t, ss[0])..], ss[1..], first[1..], second[1..]);
    }
  }

  // Doing the same edit twice changes nothing further.
  lemma PutIdempotent(t: string, ss: seq<Section>, items: seq<seq<string>>)
    requires Found(t, ss) && |items| == |ss|
    requires (forall s <- ss :: SingleLine(s)) && (forall list <- items :: AllClean(list))
    ensures Found(Put(t, ss, items), ss)
    ensures Put(Put(t, ss, items), ss, items) == Put(t, ss, items)
  {
    PutPut(t, ss, items, items);
  }

  // A text is its outside pieces with its blocks in between.
  function Interleave(outside: seq<string>, inside: seq<string>): string
    requires |outside| == |inside| + 1
  {
    if inside == [] then outside[0]
    else outside[0] + inside[0] + Interleave(outside[1..], inside[1..])
  }

  lemma {:induction false} TextIsInterleaved(t: string, ss: seq<Section>)
    requires Found(t, ss)
    ensures |Outside(t, ss)| == |ss| + 1
    ensures Interleave(Outside(t, ss), Inside(t, ss)) == t
    decreases |ss|
  {
    hide LineLength, FirstLine, MatchBullet, ReadBlock, Find, AfterHeader, Start, End;
    if ss != [] {
      var n, e := Start(t, ss[0]), End(t, ss[0]);
      TextIsInterleaved(t[e..], ss[1..]);
      assert Outside(t, ss)[1..] == Outside(t[e..], ss[1..]) && Inside(t, ss)[1..] == Inside(t[e..], ss[1..]);
      assert t == t[..n] + t[n..e] + t[e..];
    }
  }

  lemma {:induction false} GetIsClean(t: string, ss: seq<Section>)
    requires Found(t, ss)
    ensures forall list <- Get(t, ss) :: AllClean(list)
    decreases |ss|
  {
    if ss != [] {
      ReadBlockFacts(t[Start(t, ss[0])..], None);
      GetIsClean(t[End(t, ss[0])..], ss[1..]);
    }
  }

  // Get-put holds exactly for texts whose blocks are already written the way Put writes
  // them: writing back what was read otherwise normalises them.
  lemma GetPut(t: string, ss: seq<Section>)
    requires Found(t, ss) && (forall s <- ss :: SingleLine(s))
    ensures Put(t, ss, Get(t, ss)) == t <==> Printed(Inside(t, ss), Indents(t, ss), Get(t, ss))
  {
    var u := Put(t, ss, Get(t, ss));
    GetIsClean(t, ss);
    PutFrame(t, ss, Get(t, ss));
    TextIsInterleaved(t, ss);
    TextIsInterleaved(u, ss);
    if Printed(Inside(t, ss), Indents(t, ss), Get(t, ss)) {
      assert Inside(u, ss) == Inside(t, ss);
    }
  }
}
