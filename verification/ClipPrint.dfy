/** The width-limited printing of src/ioreg.c: printinit, printva, print and println. */
module ClipPrint {
  /** Newlines are printed as spaces. */
  function Clean(text: string): (s: string)
    ensures |s| == |text| && forall i :: 0 <= i < |s| ==> s[i] == if text[i] == '\n' then ' ' else text[i]
  {
    seq(|text|, i requires 0 <= i < |text| => if text[i] == '\n' then ' ' else text[i])
  }

  function Take(s: string, n: nat): string {
    if |s| <= n then s else s[..n]
  }

  /** The whole text of a line, and what it looks like on a screen of the given width. */
  function Concat(texts: seq<string>): string {
    if texts == [] then "" else texts[0] + Concat(texts[1..])
  }

  function ClippedLine(text: string, width: nat): string
    requires width > 0
  {
    Take(Clean(text), width - 1) + (if |text| > width - 1 then "$" else "") + "\n"
  }

  /** What a line of limited width looks like: its beginning, the mark if there is more, the newline. */
  lemma LineLooks(text: string, width: nat)
    requires width > 0
    ensures var line := ClippedLine(text, width);
            var shown := if |text| < width then |text| else width - 1;
            && |line| == shown + (if |text| >= width then 2 else 1) <= width + 1
            && (forall i :: 0 <= i < shown ==> line[i] == if text[i] == '\n' then ' ' else text[i])
            && (|text| >= width ==> line[shown] == '$')
            && line[|line| - 1] == '\n'
  {
  }

  class Printer {
    var size: nat
    var left: nat
    var clip: bool
    var screen: string    // everything printed so far
    ghost var line: string    // what the current line was asked to show
    ghost var start: string   // the screen when the line began

    /** On a limited screen: the line is shown up to its limit, and one cell stays free. */
    ghost predicate Valid()
      reads this
    {
      && screen == start + (if size > 0 then Take(Clean(line), size - 1) else line)
      && (size > 0 ==> left == size - |Take(Clean(line), size - 1)| && left >= 1 && (clip <==> |line| > size - 1))
      && (size == 0 ==> !clip)
    }

    constructor (width: nat)
      ensures Valid() && size == width && screen == "" && line == "" && start == ""
    {
      size, left, clip, screen := width, width, false, "";
      line, start := "", "";
    }

    /** printva: text is what the format produces. */
    method Print(text: string)
      requires Valid()
      modifies this
      ensures Valid() && line == old(line) + text && start == old(start) && size == old(size)
    {
      if size > 0 {
        PrintStep(start, line, text, size, left);
        hide Clean, Take;
        var count := |text|;
        var printbuf := Clean(if count < left then text else text[..left - 1]);
        screen := screen + printbuf;
        if count >= left {
          count := left - 1;
          clip := true;
        }
        left := left - count;
      } else {
        assert start + line + text == start + (line + text);
        screen := screen + text;
      }
      line := line + text;
    }

    method PrintLn(text: string)
      requires Valid()
      modifies this
      ensures Valid() && line == "" && start == screen && size == old(size)
      ensures screen == old(start) + if size > 0 then ClippedLine(old(line) + text, size) else old(line) + text + "\n"
    {
      Print(text);
      if clip { screen := screen + "$"; }
      screen := screen + "\n";
      clip := false;
      left := size;
      line, start := "", screen;
    }

    /** A line made of any number of print calls and a println. */
    method PrintAll(texts: seq<string>, last: string)
      requires Valid() && line == ""
      modifies this
      ensures Valid() && size == old(size) && line == ""
      ensures screen == old(screen) +
                        if size > 0 then ClippedLine(Concat(texts) + last, size) else Concat(texts) + last + "\n"
    {
      for i := 0 to |texts|
        invariant Valid() && line == Concat(texts[..i]) && start == old(start) && size == old(size)
      {
        ConcatAppend(texts[..i], texts[i]);
        assert texts[..i + 1] == texts[..i] + [texts[i]];
        Print(texts[i]);
      }
      assert texts[..|texts|] == texts;
      PrintLn(last);
    }
  }

  /** Clipping piece by piece is clipping the whole: one call of printva with `left` cells to go. */
  lemma PrintStep(start: string, line: string, text: string, size: nat, left: nat)
    requires size > 0 && left == size - |Take(Clean(line), size - 1)|
    ensures left >= 1
    ensures var shown := Take(Clean(line + text), size - 1);
            && start + shown ==
               start + Take(Clean(line), size - 1) + Clean(if |text| < left then text else text[..left - 1])
            && left - (if |text| < left then |text| else left - 1) == size - |shown| >= 1
    ensures |line + text| > size - 1 <==> |line| > size - 1 || |text| >= left
  {
    assert Clean(line + text) == Clean(line) + Clean(text);
    if |text| >= left { assert Clean(text[..left - 1]) == Clean(text)[..left - 1]; }
    if |line| > size - 1 { assert text[..0] == ""; }
    var piece := Clean(if |text| < left then text else text[..left - 1]);
    assert Take(Clean(line + text), size - 1) == Take(Clean(line), size - 1) + piece;
    assert start + (Take(Clean(line), size - 1) + piece) == start + Take(Clean(line), size - 1) + piece;
  }

  lemma {:induction false} ConcatAppend(texts: seq<string>, text: string)
    ensures Concat(texts + [text]) == Concat(texts) + text
  {
    if texts == [] {
      assert [] + [text] == [text];
      assert Concat([text]) == text + Concat([]);
    } else {
      assert (texts + [text])[1..] == texts[1..] + [text];
      ConcatAppend(texts[1..], text);
      assert texts[0] + (Concat(texts[1..]) + text) == texts[0] + Concat(texts[1..]) + text;
    }
  }
}
