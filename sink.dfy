/**
 * The external-link file `external_links.txt`, which `write_to_disk` opens in
 * append mode for every link and extends by the link and a newline.
 */
module Sink {

  /** The text that writing `links` one after another appends to the file. */
  function Lines(links: seq<string>): (text: string)
    ensures |text| >= |links|
    ensures EndsWithNewline(text)
  {
    if links == [] then [] else links[0] + "\n" + Lines(links[1..])
  }

  /** Writing one more link extends the text by that link's line. */
  lemma {:induction false} LinesSnoc(links: seq<string>, x: string)
    ensures Lines(links + [x]) == Lines(links) + x + "\n"
  {
    if links != [] {
      assert (links + [x])[1..] == links[1..] + [x];
      LinesSnoc(links[1..], x);
    }
  }

  /** After the lines of `links`, writing `x` leaves the lines of `links + [x]`. */
  lemma WriteExtendsLines(before: string, links: seq<string>, x: string)
    ensures before + Lines(links) + x + "\n" == before + Lines(links + [x])
  {
    LinesSnoc(links, x);
  }

  /** Writing two batches of links is writing them as one batch. */
  lemma {:induction false} LinesAppend(xs: seq<string>, ys: seq<string>)
    ensures Lines(xs + ys) == Lines(xs) + Lines(ys)
  {
    if xs != [] {
      assert (xs + ys)[0] == xs[0];
      assert (xs + ys)[1..] == xs[1..] + ys;
      LinesAppend(xs[1..], ys);
      assert Lines(xs + ys) == xs[0] + "\n" + (Lines(xs[1..]) + Lines(ys));
    } else {
      assert xs + ys == ys;
    }
  }

  /** The append-only file: `text` is its whole content. */
  class LinkFile {
    var text: string

    /** Opens the file with whatever an earlier run left in it. */
    constructor (existing: string)
      ensures text == existing
    {
      text := existing;
    }

    /** `write_to_disk`: appends `content` and a newline, keeping what was there. */
    method WriteLine(content: string)
      modifies this
      ensures text == old(text) + content + "\n"
    {
      text := text + content + "\n";
    }
  }

  // Reading the file back, one link per line.

  predicate NoNewline(s: string)
  {
    '\n' !in s
  }

  /** Text that is empty or ends with a complete line. */
  predicate EndsWithNewline(text: string)
  {
    text == [] || text[|text| - 1] == '\n'
  }

  /** The position of the first newline in `s`. */
  function NewlineIndex(s: string): (i: nat)
    requires '\n' in s
    ensures i < |s| && s[i] == '\n' && NoNewline(s[..i])
  {
    if s[0] == '\n' then 0
    else
      assert '\n' in s[1..] by { assert s == [s[0]] + s[1..]; }
      var j := NewlineIndex(s[1..]);
      assert s[..j + 1] == [s[0]] + s[1..][..j];
      1 + j
  }

  /** A newline with none before it is the first newline. */
  lemma NewlineIndexUnique(s: string, j: nat)
    requires j < |s| && s[j] == '\n' && NoNewline(s[..j])
    ensures NewlineIndex(s) == j
  {
  }

  /**
   * The lines of `text`: the pieces between newlines, plus an unterminated
   * last piece if there is one.
   */
  function SplitLines(text: string): (lines: seq<string>)
    ensures forall k :: 0 <= k < |lines| ==> NoNewline(lines[k])
    decreases |text|
  {
    if text == [] then []
    else if NoNewline(text) then [text]
    else
      var i := NewlineIndex(text);
      [text[..i]] + SplitLines(text[i + 1..])
  }

  /** Splitting distributes over text that ends with a complete line. */
  lemma {:induction false} SplitLinesAppend(t: string, u: string)
    requires EndsWithNewline(t)
    ensures SplitLines(t + u) == SplitLines(t) + SplitLines(u)
    decreases |t|
  {
    if t != [] {
      assert '\n' in t;
      var i := NewlineIndex(t);
      assert (t + u)[i] == '\n';
      assert (t + u)[..i] == t[..i];
      NewlineIndexUnique(t + u, i);
      assert (t + u)[i + 1..] == t[i + 1..] + u;
      SplitLinesAppend(t[i + 1..], u);
      assert SplitLines(t + u) == [t[..i]] + SplitLines(t[i + 1..] + u);
      assert SplitLines(t) == [t[..i]] + SplitLines(t[i + 1..]);
    } else {
      assert t + u == u;
    }
  }

  /** A complete first line is split off as it is. */
  lemma SplitLinesCons(line: string, rest: string)
    requires NoNewline(line)
    ensures SplitLines(line + "\n" + rest) == [line] + SplitLines(rest)
  {
    var t := line + "\n" + rest;
    var n := |line|;
    assert t[n] == '\n' && t[..n] == line && t[n + 1..] == rest;
    NewlineIndexUnique(t, n);
  }

  /** The written text reads back as exactly the links written, in order. */
  lemma {:induction false} SplitLinesOfLines(links: seq<string>)
    requires forall k :: 0 <= k < |links| ==> NoNewline(links[k])
    ensures SplitLines(Lines(links)) == links
  {
    if links != [] {
      SplitLinesCons(links[0], Lines(links[1..]));
      SplitLinesOfLines(links[1..]);
    }
  }

  /**
   * Appending links to a file whose content ends with a complete line keeps
   * every earlier line and adds one line per link, in order.
   */
  lemma AppendedLinksReadBack(before: string, links: seq<string>)
    requires EndsWithNewline(before)
    requires forall k :: 0 <= k < |links| ==> NoNewline(links[k])
    ensures SplitLines(before + Lines(links)) == SplitLines(before) + links
  {
    SplitLinesAppend(before, Lines(links));
    SplitLinesOfLines(links);
  }
}
