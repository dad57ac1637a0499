/** The text of a cached comparison: one line per file (save and load of snapper/Comparison.cc). */
module FileText {
  import opened Status
  import opened FileLists
  import opened Sequences

  function LineOf(f: File): string {
    StatusToString(f.status) + " " + f.name + "\n"
  }

  function Encode(fs: seq<File>): string {
    if fs == [] then "" else LineOf(fs[0]) + Encode(fs[1..])
  }

  /** Position of the first c; |s| when there is none. */
  function FindChar(s: string, c: char): (i: nat)
    ensures i <= |s| && c !in s[..i] && (i < |s| ==> s[i] == c)
  {
    if s == "" || s[0] == c then 0 else
      var i := 1 + FindChar(s[1..], c);
      assert s[..i] == [s[0]] + s[1..][..i - 1];
      i
  }

  /** A line without a space is skipped. */
  function DecodeLine(line: string): seq<File> {
    var pos := FindChar(line, ' ');
    if pos == |line| then [] else [File(line[pos + 1..], StringToStatus(line[..pos]), false)]
  }

  function AfterLine(text: string): string {
    var n := FindChar(text, '\n');
    if n < |text| then text[n + 1..] else ""
  }

  function Decode(text: string): seq<File>
    decreases |text|
  {
    if text == "" then [] else DecodeLine(FirstLine(text)) + Decode(AfterLine(text))
  }

  /** A file that survives being written down. */
  predicate Writable(f: File) {
    !f.undo && Printable(f.status) && '\n' !in f.name
  }

  lemma FindCharIs(s: string, c: char, i: nat)
    requires i < |s| && s[i] == c && c !in s[..i]
    ensures FindChar(s, c) == i
  {
  }

  lemma DecodeOne(f: File, rest: string)
    requires Writable(f)
    ensures Decode(LineOf(f) + rest) == [f] + Decode(rest)
  {
    var text := LineOf(f) + rest;
    var line := StatusToString(f.status) + " " + f.name;
    assert text[..|line|] == line && text[|line| + 1..] == rest;
    FindCharIs(text, '\n', |line|);
    assert line[..4] == StatusToString(f.status) && line[5..] == f.name;
    FindCharIs(line, ' ', 4);
    StatusRoundTrip(f.status);
  }

  /** A line, whoever wrote it: what is before the first space is the status, the rest is the name. */
  lemma LineRead(head: string, name: string, rest: string)
    requires ' ' !in head && '\n' !in head && '\n' !in name
    ensures Decode(head + " " + name + "\n" + rest) == [File(name, StringToStatus(head), false)] + Decode(rest)
  {
    var line := head + " " + name;
    var text := line + "\n" + rest;
    assert text == head + " " + name + "\n" + rest;
    assert text[..|line|] == line && text[|line| + 1..] == rest;
    FindCharIs(text, '\n', |line|);
    assert line[..|head|] == head && line[|head| + 1..] == name;
    FindCharIs(line, ' ', |head|);
  }

  /** A line without a space is passed over. */
  lemma LineSkipped(line: string, rest: string)
    requires ' ' !in line && '\n' !in line
    ensures Decode(line + "\n" + rest) == Decode(rest)
  {
    var text := line + "\n" + rest;
    assert text[..|line|] == line && text[|line| + 1..] == rest;
    FindCharIs(text, '\n', |line|);
    FindCharIsEnd(line, ' ');
  }

  /** Each file is one line: four letters, a space, the name. */
  lemma LineWritten(f: File, fs: seq<File>)
    ensures Encode([f] + fs) == StatusToString(f.status) + " " + f.name + "\n" + Encode(fs)
  {
    assert ([f] + fs)[1..] == fs;
  }

  lemma {:induction false} DecodeEncode(fs: seq<File>)
    requires forall f :: f in fs ==> Writable(f)
    ensures Decode(Encode(fs)) == fs
  {
    if fs != [] {
      DecodeOne(fs[0], Encode(fs[1..]));
      DecodeEncode(fs[1..]);
      assert fs == [fs[0]] + fs[1..];
    }
  }

  lemma ReadsPrintable(str: string)
    ensures Printable(StringToStatus(str))
  {
  }

  /** Whatever is read back could have been written. */
  lemma {:induction false} DecodedWritable(text: string)
    ensures forall f :: f in Decode(text) ==> Writable(f)
    decreases |text|
  {
    if text != "" {
      DecodedWritable(AfterLine(text));
      var line := FirstLine(text);
      ReadsPrintable(line[..FindChar(line, ' ')]);
    }
  }

  /** The file list is a faithful cache exactly for lists of writable files: one line break in a name spoils it. */
  lemma RoundTrip(fs: seq<File>)
    ensures Decode(Encode(fs)) == fs <==> forall f :: f in fs ==> Writable(f)
  {
    DecodedWritable(Encode(fs));
    if forall f :: f in fs ==> Writable(f) { DecodeEncode(fs); }
  }

  lemma OneLine(text: string)
    requires text != "" && '\n' !in text
    ensures Decode(text) == DecodeLine(text)
  {
    FindCharIsEnd(text, '\n');
    assert text[..|text|] == text;
  }

  lemma FindCharIsEnd(s: string, c: char)
    requires c !in s
    ensures FindChar(s, c) == |s|
  {
  }

  /** What is left of a line that was cut off is at most one file, and the right one only if just the line break is
      missing. */
  lemma CutLine(f: File, k: nat)
    requires Writable(f) && k < |LineOf(f)|
    ensures |Decode(LineOf(f)[..k])| <= 1
    ensures Decode(LineOf(f)[..k]) == [f] <==> k == |LineOf(f)| - 1
  {
    var body := StatusToString(f.status) + " " + f.name;
    assert |LineOf(f)| == |f.name| + 6 && LineOf(f)[..k] == body[..k];
    var text := body[..k];
    if k > 4 {
      CutInName(f, k);
      assert f.name[..k - 5] == f.name <==> k - 5 == |f.name|;
    } else if k > 0 {
      OneLine(text);
      assert text == StatusToString(f.status)[..k];
      FindCharIsEnd(text, ' ');
    }
  }

  lemma CutInName(f: File, k: nat)
    requires Writable(f) && 4 < k < |LineOf(f)|
    ensures Decode(LineOf(f)[..k]) == [File(f.name[..k - 5], f.status, false)]
  {
    var body := StatusToString(f.status) + " " + f.name;
    var text := body[..k];
    assert LineOf(f)[..k] == text;
    OneLine(text);
    assert text[..4] == StatusToString(f.status) && text[5..] == f.name[..k - 5];
    FindCharIs(text, ' ', 4);
    StatusRoundTrip(f.status);
  }

  lemma EncodeLong(fs: seq<File>)
    requires fs != []
    ensures |Encode(fs)| >= |LineOf(fs[0])| >= 6
  {
  }

  lemma CutInFirstLine(fs: seq<File>, k: nat)
    requires fs != [] && Writable(fs[0]) && k < |LineOf(fs[0])|
    ensures Encode(fs)[..k] == LineOf(fs[0])[..k]
    ensures Decode(Encode(fs)[..k]) == fs <==> k >= |Encode(fs)| - 1
  {
    assert Encode(fs) == LineOf(fs[0]) + Encode(fs[1..]);
    assert Encode(fs)[..k] == LineOf(fs[0])[..k];
    CutLine(fs[0], k);
    if |fs| > 1 {
      EncodeLong(fs[1..]);
    } else {
      assert fs == [fs[0]];
    }
  }

  lemma CutAfterFirstLine(fs: seq<File>, k: nat)
    requires fs != [] && Writable(fs[0]) && |LineOf(fs[0])| <= k <= |Encode(fs)|
    ensures Decode(Encode(fs)[..k]) == [fs[0]] + Decode(Encode(fs[1..])[..k - |LineOf(fs[0])|])
  {
    var line, rest := LineOf(fs[0]), Encode(fs[1..]);
    assert (line + rest)[..k] == line + rest[..k - |line|];
    DecodeOne(fs[0], rest[..k - |line|]);
  }

  /** A file list that was not written to its end loads as another comparison, unless only the last line break is
      missing. */
  lemma {:induction false} TruncatedIff(fs: seq<File>, k: nat)
    requires (forall f :: f in fs ==> Writable(f)) && k <= |Encode(fs)|
    ensures Decode(Encode(fs)[..k]) == fs <==> k >= |Encode(fs)| - 1
  {
    if fs != [] {
      var length := |LineOf(fs[0])|;
      if k < length {
        CutInFirstLine(fs, k);
      } else {
        CutAfterFirstLine(fs, k);
        TruncatedIff(fs[1..], k - length);
        SameTail(fs, Decode(Encode(fs[1..])[..k - length]));
      }
    }
  }

  lemma SameTail(fs: seq<File>, gs: seq<File>)
    requires fs != []
    ensures [fs[0]] + gs == fs <==> gs == fs[1..]
  {
    assert ([fs[0]] + gs)[1..] == gs && fs == [fs[0]] + fs[1..];
  }

  /** A file whose name has a line break comes back as another. */
  lemma LineBreakCounterexample()
    ensures Decode(Encode([File("/a\nb", CREATED, false)])) != [File("/a\nb", CREATED, false)]
  {
    var fs := [File("/a\nb", CREATED, false)];
    assert fs[0].name[2] == '\n';
    assert fs[0] in fs && !Writable(fs[0]);
    RoundTrip(fs);
  }

  /** The list as the other argument order sees it, if asked for. */
  function Oriented(fs: seq<File>, invert: bool): seq<File> {
    if invert then InvertAll(fs) else fs
  }

  function FirstLine(text: string): string {
    text[..FindChar(text, '\n')]
  }

  lemma OrientedAppend(fs: seq<File>, gs: seq<File>, invert: bool)
    ensures Oriented(fs + gs, invert) == Oriented(fs, invert) + Oriented(gs, invert)
  {
  }

  lemma DecodeFirst(text: string, invert: bool)
    requires text != ""
    ensures Oriented(Decode(text), invert)
         == Oriented(DecodeLine(FirstLine(text)), invert) + Oriented(Decode(AfterLine(text)), invert)
  {
    OrientedAppend(DecodeLine(FirstLine(text)), Decode(AfterLine(text)), invert);
  }

  /** The reading loop of load. */
  method ReadList(text: string, invert: bool) returns (fs: seq<File>)
    ensures fs == Oriented(Decode(text), invert)
  {
    fs := [];
    var rest := text;
    while rest != ""
      invariant Oriented(Decode(text), invert) == fs + Oriented(Decode(rest), invert)
      decreases |rest|
    {
      var next := Oriented(DecodeLine(FirstLine(rest)), invert);
      DecodeFirst(rest, invert);
      Associative(fs, next, Oriented(Decode(AfterLine(rest)), invert));
      fs, rest := fs + next, AfterLine(rest);
    }
  }

  /** The writing loop of save. */
  method WriteList(fs: seq<File>, invert: bool) returns (text: string)
    ensures text == Encode(Oriented(fs, invert))
  {
    text := "";
    ghost var gs := Oriented(fs, invert);
    for i := 0 to |fs|
      invariant text == Encode(gs[..i])
    {
      var f := if invert then Invert(fs[i]) else fs[i];
      text := text + LineOf(f);
      EncodeAppend(gs[..i], f);
      assert gs[..i + 1] == gs[..i] + [f];
    }
    assert gs[..|fs|] == gs;
  }

  lemma {:induction false} EncodeAppend(fs: seq<File>, f: File)
    ensures Encode(fs + [f]) == Encode(fs) + LineOf(f)
  {
    if fs != [] {
      EncodeAppend(fs[1..], f);
      assert (fs + [f])[1..] == fs[1..] + [f];
    }
  }

  function Invert(f: File): File {
    f.(status := InvertStatus(f.status))
  }

  function InvertAll(fs: seq<File>): (gs: seq<File>)
    ensures |gs| == |fs| && forall i :: 0 <= i < |fs| ==> gs[i] == Invert(fs[i])
  {
    seq(|fs|, i requires 0 <= i < |fs| => Invert(fs[i]))
  }
}
