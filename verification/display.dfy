/** The "Selected: …" line each tool shows under its drop zone
    (js/script.js:175-222 after a drop, 232-264 after a pick). Names joined
    with `", "` that run past 50 characters are cut to their first 50
    characters followed by `"..."`; the merge tool also states how many files
    were chosen. */
module Display {
  import opened Wrappers
  import opened JsText

  /** The longest joined-name text shown in full. */
  const MaxShown: nat := 50

  const Ellipsis: string := "..."

  const Prefix: string := "Selected: "

  /** `names.join(', ')`. */
  function JoinNames(names: seq<string>): string {
    if |names| == 0 then ""
    else if |names| == 1 then names[0]
    else JoinNames(names[..|names| - 1]) + ", " + names[|names| - 1]
  }

  function TotalLength(names: seq<string>): nat {
    if |names| == 0 then 0 else TotalLength(names[..|names| - 1]) + |names[|names| - 1]|
  }

  /** The joined text is as long as all the names plus two characters per
      separator. */
  lemma {:induction false} JoinNamesLength(names: seq<string>)
    requires |names| > 0
    ensures |JoinNames(names)| == TotalLength(names) + 2 * (|names| - 1)
  {
    if |names| > 1 {
      var init := names[..|names| - 1];
      JoinNamesLength(init);
    } else {
      assert names[..0] == [];
    }
  }

  /** Joining a selection is joining its two parts with one separator
      between them: every name appears, in order, and nothing else does. */
  lemma {:induction false} JoinNamesAppend(a: seq<string>, b: seq<string>)
    requires |a| > 0 && |b| > 0
    ensures JoinNames(a + b) == JoinNames(a) + ", " + JoinNames(b)
  {
    var last := b[|b| - 1];
    if |b| == 1 {
      assert (a + b)[..|a + b| - 1] == a;
    } else {
      var init := b[..|b| - 1];
      assert (a + b)[..|a + b| - 1] == a + init;
      JoinNamesAppend(a, init);
      assert JoinNames(a + b) == JoinNames(a) + ", " + JoinNames(init) + ", " + last;
    }
  }

  /** The first name opens the joined text. */
  lemma {:induction false} JoinNamesStartsWithFirst(names: seq<string>)
    requires |names| > 0
    ensures |names[0]| <= |JoinNames(names)| && JoinNames(names)[..|names[0]|] == names[0]
  {
    if |names| > 1 {
      var init := names[..|names| - 1];
      JoinNamesStartsWithFirst(init);
      assert init[0] == names[0];
      var j := JoinNames(init);
      assert (j + ", " + names[|names| - 1])[..|names[0]|] == j[..|names[0]|];
    }
  }

  /** The text shown for the joined names: unchanged when short, otherwise
      the first 50 characters and an ellipsis. */
  function Truncate(s: string): (r: string)
    ensures |r| <= MaxShown + |Ellipsis|
    ensures |s| <= MaxShown ==> r == s
    ensures |s| > MaxShown ==> |r| == MaxShown + |Ellipsis|
    ensures |s| > MaxShown ==> r[..MaxShown] == s[..MaxShown] && r[MaxShown..] == Ellipsis
  {
    if |s| > MaxShown then s[..MaxShown] + Ellipsis else s
  }

  /** Whatever is shown is the start of the full text, possibly followed by
      the ellipsis: no character is altered. */
  lemma TruncateKeepsPrefix(s: string)
    ensures var r := Truncate(s);
      var kept := if |s| <= MaxShown then |s| else MaxShown;
      r[..kept] == s[..kept] && (r == s || r == s[..kept] + Ellipsis)
  {
  }

  /** Cutting an already cut text changes nothing. */
  lemma TruncateIdempotent(s: string)
    ensures Truncate(Truncate(s)) == Truncate(s)
  {
    if |s| > MaxShown {
      var r := Truncate(s);
      assert r[..MaxShown] == s[..MaxShown];
    }
  }

  /** The image tool's line after a pick (js/script.js:236-243): empty for
      an empty pick, otherwise the prefix followed by at most 53 characters
      that start with the first name, or its first 50 characters. */
  function ImageInfo(names: seq<string>): (line: string)
    ensures |names| == 0 ==> line == ""
    ensures |names| > 0 ==>
      |Prefix| <= |line| <= |Prefix| + MaxShown + |Ellipsis| && line[..|Prefix|] == Prefix
    ensures |names| > 0 ==>
      var shown := if |names[0]| <= MaxShown then |names[0]| else MaxShown;
      |Prefix| + shown <= |line| && line[|Prefix|..|Prefix| + shown] == names[0][..shown]
    ensures |names| > 0 && |JoinNames(names)| <= MaxShown ==> line == Prefix + JoinNames(names)
    ensures |names| > 0 && |JoinNames(names)| > MaxShown ==>
      line == Prefix + JoinNames(names)[..MaxShown] + Ellipsis
  {
    if |names| == 0 then ""
    else
      var j := JoinNames(names);
      JoinNamesStartsWithFirst(names);
      var shown := if |names[0]| <= MaxShown then |names[0]| else MaxShown;
      assert j[..shown] == names[0][..shown];
      var t := Truncate(j);
      assert t[..shown] == j[..shown];
      assert (Prefix + t)[|Prefix|..|Prefix| + shown] == t[..shown];
      Prefix + t
  }

  /** The file count the merge tool appends to its line. */
  function CountNote(n: nat): string {
    " (" + DecimalString(n) + " files)"
  }

  /** The merge tool's line after a pick (js/script.js:255-262): empty for an
      empty pick, otherwise the prefix, the shown names and the note of how
      many files were chosen. */
  function MergeInfo(names: seq<string>): (line: string)
    ensures |names| == 0 ==> line == ""
    ensures |names| > 0 ==>
      var note := CountNote(|names|);
      |Prefix| + |note| <= |line| <= |Prefix| + MaxShown + |Ellipsis| + |note|
      && line[..|Prefix|] == Prefix && line[|line| - |note|..] == note
    ensures |names| > 0 ==> line == ImageInfo(names) + CountNote(|names|)
  {
    if |names| == 0 then ""
    else
      var head := Prefix + Truncate(JoinNames(names));
      var note := CountNote(|names|);
      assert (head + note)[|head|..] == note;
      assert (head + note)[..|Prefix|] == Prefix;
      head + note
  }

  /** The single-file tools' line after a pick (js/script.js:271-280 and the
      four handlers after it). */
  function SingleInfo(name: string): string {
    Prefix + name
  }

  /** The tools a drop zone belongs to. */
  datatype Tool = Image | Merge | Split | Watermark | Rotate | Delete | Compress

  /** `updateFileInfo`, called only after a drop of at least one file
      (js/script.js:127, 163): a drop shows the same line a pick of the
      same files shows. */
  function DropInfo(tool: Tool, names: seq<string>): (line: string)
    requires |names| > 0
    ensures tool == Image ==> line == ImageInfo(names)
    ensures tool == Merge ==> line == MergeInfo(names)
    ensures tool != Image && tool != Merge ==> line == SingleInfo(names[0])
  {
    match tool
    case Image => Prefix + Truncate(JoinNames(names))
    case Merge => Prefix + (Truncate(JoinNames(names)) + CountNote(|names|))
    case _ => Prefix + names[0]
  }

  /** The count in the note is written so that `parseInt` reads back exactly
      that number. */
  lemma CountNoteReadsBack(n: nat)
    ensures |CountNote(n)| > 2 && CountNote(n)[..2] == " ("
    ensures ParseInt(CountNote(n)[2..], Default) == Some(n)
  {
    var count := DecimalString(n);
    var rest := " files)";
    assert CountNote(n)[2..] == count + rest;
    assert rest[0] == ' ';
    DecimalDigitsThenRest(count, rest);
    DecimalStringValue(n);
  }
}
