/**
 * The work detail page: the lookup of the work named in the address, the
 * loading / not-found / detail states, the paragraphs of the description,
 * and the "More Works" strip.
 */
module WorkDetail {
  import opened Wrappers
  import opened JsArray
  import opened JsString

  /** A work as the detail page lists it; ids are strings. */
  datatype WorkItem = WorkItem(
    id: string,
    title: string,
    category: string,
    image: string,
    date: string,
    location: string,
    description: string,
    tags: seq<string>)

  /** The page's own list of works. */
  function Works(): seq<WorkItem>
  {
    [
      WorkItem("1", "Urban Reflections", "Street Photography", "/placeholder-image.jpg", "February 2025", "New York City, NY",
        "",
        ["Reflection", "Urban", "Street Photography", "New York"]),
      WorkItem("2", "Neon Nights", "Cityscape", "/placeholder-image.jpg", "January 2025", "Tokyo, Japan",
        "",
        ["Night Photography", "Neon", "Urban", "Tokyo"]),
      WorkItem("3", "Portrait Series", "Portrait", "/placeholder-image.jpg", "March 2025", "Studio, Brooklyn",
        "",
        ["Portrait", "People", "Studio", "Black and White"]),
      WorkItem("4", "Time-lapse: NYC", "Video", "/placeholder-image.jpg", "April 2025", "New York City, NY",
        "",
        ["Time-lapse", "Video", "Urban", "New York"]),
      WorkItem("5", "Abandoned Spaces", "Urban Exploration", "/placeholder-image.jpg", "May 2025", "Various Locations",
        "",
        ["Urban Exploration", "Abandoned", "Decay", "Architecture"]),
      WorkItem("6", "Motion Study", "Abstract", "/placeholder-image.jpg", "June 2025", "Studio Work",
        "",
        ["Abstract", "Long Exposure", "Motion", "Experimental"]),
      WorkItem("7", "Street Life", "Street", "/placeholder-image.jpg", "July 2025", "Various Cities",
        "",
        ["Street", "Documentary", "People", "Urban Life"]),
      WorkItem("8", "Architectural Forms", "Urban", "/placeholder-image.jpg", "August 2025", "Various Cities",
        "",
        ["Architecture", "Geometry", "Design", "Urban"]),
      WorkItem("9", "Portrait Series II", "Portrait", "/placeholder-image.jpg", "September 2025", "Studio, Brooklyn",
        "",
        ["Portrait", "Studio", "Lighting", "Character Study"]),
      WorkItem("10", "Urban Geometry", "Abstract", "/placeholder-image.jpg", "October 2025", "Various Cities",
        "",
        ["Abstract", "Geometry", "Urban", "Patterns"]),
      WorkItem("11", "Street Musicians", "Street", "/placeholder-image.jpg", "November 2025", "Various Cities",
        "",
        ["Music", "Performance", "Street", "Artists"]),
      WorkItem("12", "Documentary: NYC", "Video", "/placeholder-image.jpg", "December 2025", "New York City, NY",
        "",
        ["Documentary", "Film", "New York", "Urban Stories"]),
      WorkItem("13", "Light Studies", "Abstract", "/placeholder-image.jpg", "January 2026", "Various Locations",
        "",
        ["Light", "Experimental", "Abstract", "Long Exposure"]),
      WorkItem("14", "Skyline", "Urban", "/placeholder-image.jpg", "February 2026", "Various Cities",
        "",
        ["Cityscape", "Urban", "Architecture", "Skyline"]),
      WorkItem("15", "Portrait Series III", "Portrait", "/placeholder-image.jpg", "March 2026", "Various Locations",
        "",
        ["Portrait", "Environmental", "Identity", "Storytelling"])
    ]
  }

  /** No two works share an id. */
  ghost predicate DistinctIds(works: seq<WorkItem>)
  {
    forall i, j :: 0 <= i < j < |works| ==> works[i].id != works[j].id
  }

  /** The decimal text of a number below one hundred, as `String(n)` writes it. */
  function DecimalId(n: nat): (t: string)
    requires n < 100
    ensures |t| == (if n < 10 then 1 else 2)
  {
    if n < 10 then [Digit(n)] else [Digit(n / 10), Digit(n % 10)]
  }

  function Digit(d: nat): char
    requires d < 10
  {
    ('0' as int + d) as char
  }

  /** Distinct numbers have distinct decimal texts. */
  lemma DecimalIdInjective(m: nat, n: nat)
    requires m < 100 && n < 100 && m != n
    ensures DecimalId(m) != DecimalId(n)
  {
    if m >= 10 && n >= 10 {
      if m / 10 == n / 10 {
        assert DecimalId(m)[1] != DecimalId(n)[1];
      } else {
        assert DecimalId(m)[0] != DecimalId(n)[0];
      }
    } else if m < 10 && n < 10 {
      assert DecimalId(m)[0] != DecimalId(n)[0];
    }
  }

  /** The ids the works carry, in order. */
  function WorkIdTexts(): seq<string>
  {
    ["1", "2", "3", "4", "5", "6", "7", "8", "9", "10", "11", "12", "13", "14", "15"]
  }

  /** The works' ids are "1" to "15" in order. */
  lemma WorkIds()
    ensures |Works()| == 15
    ensures forall i :: 0 <= i < |Works()| ==> Works()[i].id == DecimalId(i + 1)
  {
    WorksCarryIdTexts();
    IdTextsAreDecimal();
  }

  /** Each work carries the id text at its position. */
  lemma WorksCarryIdTexts()
    ensures |Works()| == |WorkIdTexts()|
    ensures forall i :: 0 <= i < |Works()| ==> Works()[i].id == WorkIdTexts()[i]
  {
  }

  /** The id texts are the decimal numerals 1 to 15. */
  lemma IdTextsAreDecimal()
    ensures |WorkIdTexts()| == 15
    ensures forall i :: 0 <= i < 15 ==> WorkIdTexts()[i] == DecimalId(i + 1)
  {
  }

  /** The works' ids are distinct. */
  lemma WorkIdsDistinct()
    ensures DistinctIds(Works())
  {
    WorkIds();
    forall i, j | 0 <= i < j < |Works()|
      ensures Works()[i].id != Works()[j].id
    {
      DecimalIdInjective(i + 1, j + 1);
    }
  }

  // ---------------------------------------------------------------------------
  // Looking the work up

  function HasId(id: string): WorkItem -> bool
  {
    (w: WorkItem) => w.id == id
  }

  function NotId(id: string): WorkItem -> bool
  {
    (w: WorkItem) => w.id != id
  }

  /** The first work whose id is `id`, or nothing when there is none. */
  function FindWork(works: seq<WorkItem>, id: string): (found: Option<WorkItem>)
    ensures found.None? <==> forall i :: 0 <= i < |works| ==> works[i].id != id
    ensures forall i :: 0 <= i < |works| && works[i].id == id && (forall j :: 0 <= j < i ==> works[j].id != id) ==>
      found == Some(works[i])
  {
    Find(works, HasId(id))
  }

  /** With distinct ids, looking up any listed work's id finds that work. */
  lemma FindListedWork(works: seq<WorkItem>, i: nat)
    requires DistinctIds(works) && i < |works|
    ensures FindWork(works, works[i].id) == Some(works[i])
  {
  }

  /** What the page shows. */
  datatype Screen = Loading | NotFound | Detail(work: WorkItem)

  /** The page's state: the work shown, if any, and whether it is still loading. */
  class WorkView {
    const works: seq<WorkItem>
    var work: Option<WorkItem>
    var loading: bool

    /** The state on first render: no work, loading. */
    constructor (works: seq<WorkItem>)
      ensures this.works == works && work == None && loading
      ensures Screen() == Loading
    {
      this.works := works;
      work := None;
      loading := true;
    }

    /** The screen the state renders to: not found only once loading is over with no work. */
    function Screen(): Screen
      reads this
    {
      if !loading && work.None? then NotFound
      else if loading then Loading
      else Detail(work.value)
    }

    /**
     * The lookup effect for the address id `id`. A non-empty id ends the
     * loading state and stores the work found, if any; a work stored
     * earlier stays when nothing is found. An empty id changes nothing.
     */
    method Load(id: string)
      modifies this
      ensures id == "" ==> work == old(work) && loading == old(loading)
      ensures id != "" ==> !loading
      ensures id != "" ==> work == (if FindWork(works, id).Some? then FindWork(works, id) else old(work))
      ensures id != "" && old(work).None? ==>
        (Screen() == NotFound <==> forall i :: 0 <= i < |works| ==> works[i].id != id)
      ensures id != "" && old(work).None? && Screen().Detail? ==> Screen().work.id == id && Screen().work in works
    {
      if id != "" {
        var found := FindWork(works, id);
        if found.Some? {
          work := found;
        }
        loading := false;
      }
    }
  }

  // ---------------------------------------------------------------------------
  // More Works

  /** The strip under the work: the first three other works, in list order. */
  function MoreWorks(works: seq<WorkItem>, id: string): seq<WorkItem>
  {
    Slice(Filter(works, NotId(id)), 3)
  }

  /**
   * The strip never shows the current work, takes works in list order, and
   * holds three works unless fewer than three others exist.
   */
  lemma MoreWorksSpec(works: seq<WorkItem>, id: string)
    ensures |MoreWorks(works, id)| == Min(3, |Filter(works, NotId(id))|)
    ensures forall i :: 0 <= i < |MoreWorks(works, id)| ==>
      MoreWorks(works, id)[i].id != id && MoreWorks(works, id)[i] in works
    ensures MoreWorks(works, id) <= Filter(works, NotId(id))
    ensures IsSubsequence(MoreWorks(works, id), works)
  {
    var others := Filter(works, NotId(id));
    FilterMembers(works, NotId(id));
    FilterIsSubsequence(works, NotId(id));
    PrefixOfSubsequence(others, works, Min(3, |others|));
    var r := MoreWorks(works, id);
    forall i | 0 <= i < |r|
      ensures r[i].id != id && r[i] in works
    {
      assert r[i] == others[i];
      assert others[i] in others;
    }
  }

  /** With distinct ids, removing one id removes at most one work. */
  lemma {:induction false} OthersCount(works: seq<WorkItem>, id: string)
    requires DistinctIds(works)
    ensures |Filter(works, NotId(id))| >= |works| - 1
    decreases |works|
  {
    if works != [] {
      var rest := works[1..];
      assert DistinctIds(rest);
      OthersCount(rest, id);
      if works[0].id == id {
        FilterKeepsAll(rest, NotId(id));
      }
    }
  }

  /** On the page's own list every work gets a full strip of three. */
  lemma MoreWorksOfListHasThree(id: string)
    ensures |MoreWorks(Works(), id)| == 3
  {
    WorkIds();
    WorkIdsDistinct();
    OthersCount(Works(), id);
    MoreWorksSpec(Works(), id);
  }

  // ---------------------------------------------------------------------------
  // Description paragraphs

  /** The paragraphs the page renders: the description split at each "\n\n". */
  function Paragraphs(description: string): seq<string>
  {
    Split(description, "\n\n")
  }

  /** The paragraphs hold no "\n\n" and, rejoined, give back the description. */
  lemma ParagraphsRoundTrip(description: string)
    ensures |Paragraphs(description)| >= 1
    ensures Join(Paragraphs(description), "\n\n") == description
    ensures forall k :: 0 <= k < |Paragraphs(description)| ==> !Contains(Paragraphs(description)[k], "\n\n")
  {
    JoinSplit(description, "\n\n");
    SplitPiecesAvoidSeparator(description, "\n\n");
  }

  /** `indent` is a run of spaces. */
  predicate AllSpaces(indent: string)
    decreases |indent|
  {
    |indent| == 0 || (indent[0] == ' ' && AllSpaces(indent[1..]))
  }

  /** A blank line between two lines indented by `indent`. */
  function BlankLine(indent: string): string
  {
    "\n" + indent + "\n" + indent
  }

  /** The four spaces of source indentation in front of each line of a description. */
  function Indent(): string
  {
    "    "
  }


  /**
   * The break between paragraphs as every description on the page is
   * written: a newline, a line holding the source indentation, a newline,
   * and the indentation again before the next paragraph.
   */
  function IndentedBlankLine(): string
  {
    BlankLine(Indent())
  }

  /**
   * As written, two one-line paragraphs separated by the indented blank
   * line hold no "\n\n", so the page renders them as a single paragraph.
   */
  lemma IndentedBlankLineKeepsOneParagraph(a: string, b: string)
    requires Avoids(a, '\n') && Avoids(b, '\n')
    ensures Paragraphs(a + IndentedBlankLine() + b) == [a + IndentedBlankLine() + b]
  {
    var s := a + IndentedBlankLine() + b;
    var n := |a|;
    forall i
      ensures !OccursAt(s, "\n\n", i)
    {
      if 0 <= i && i + 2 <= |s| {
        if i < n {
          assert s[i] == a[i];
        } else if i == n || i == n + 5 {
          assert s[i + 1] == ' ';
        } else if i < n + 10 {
          assert s[i] == ' ';
        } else {
          assert s[i] == b[i - n - 10];
        }
        assert s[i..i + 2][0] == s[i] && s[i..i + 2][1] == s[i + 1];
      }
    }
    SplitWithoutSeparator(s, "\n\n");
  }

  /** `s` without its leading spaces. */
  function DropSpaces(s: string): (r: string)
    ensures |r| <= |s|
  {
    if |s| > 0 && s[0] == ' ' then DropSpaces(s[1..]) else s
  }

  /** `s` with the spaces that follow each newline removed: the source indentation of a template literal. */
  function Dedent(s: string): string
    decreases |s|
  {
    if |s| == 0 then []
    else if s[0] == '\n' then "\n" + Dedent(DropSpaces(s[1..]))
    else [s[0]] + Dedent(s[1..])
  }

  /** The paragraphs as evidently intended: the description split at its blank lines, indentation ignored. */
  function IntendedParagraphs(description: string): seq<string>
  {
    Split(Dedent(description), "\n\n")
  }

  /** Text without newlines passes through `Dedent` unchanged. */
  lemma {:induction false} DedentPlain(p: string, rest: string)
    requires Avoids(p, '\n')
    ensures Dedent(p + rest) == p + Dedent(rest)
    decreases |p|
  {
    if p != [] {
      var s := p + rest;
      assert s[0] == p[0] && s[1..] == p[1..] + rest;
      assert Avoids(p[1..], '\n') by {
        assert forall i :: 0 <= i < |p| - 1 ==> p[1..][i] == p[i + 1];
      }
      DedentPlain(p[1..], rest);
      assert Dedent(s) == [p[0]] + Dedent(p[1..] + rest);
      assert [p[0]] + p[1..] == p;
    } else {
      assert p + rest == rest;
    }
  }

  /** A newline followed by indentation dedents to the bare newline. */
  lemma DedentIndentedNewline(indent: string, rest: string)
    requires AllSpaces(indent) && (|rest| == 0 || rest[0] != ' ')
    ensures Dedent(['\n'] + (indent + rest)) == ['\n'] + Dedent(rest)
  {
    var body := indent + rest;
    assert (['\n'] + body)[1..] == body;
    DropSpacesSkips(indent, rest);
  }

  /**
   * A blank line followed by text is a newline, the indentation, and a
   * newline before the indented text; kept apart so that `DedentBlankLine`
   * does not prove it among its other facts.
   */
  lemma BlankLineThen(indent: string, rest: string)
    ensures BlankLine(indent) + rest == ['\n'] + (indent + (['\n'] + (indent + rest)))
  {
  }

  /**
   * Two newlines in front of a text, one at a time or both at once; kept
   * apart so that `DedentBlankLine` does not prove it among its other facts.
   */
  lemma TwoNewlines(d: string)
    ensures ['\n'] + (['\n'] + d) == "\n\n" + d
  {
  }

  /** An indented blank line becomes a plain "\n\n" when the next text does not start with a space. */
  lemma DedentBlankLine(indent: string, rest: string)
    requires AllSpaces(indent) && (|rest| == 0 || rest[0] != ' ')
    ensures Dedent(BlankLine(indent) + rest) == "\n\n" + Dedent(rest)
  {
    var t := ['\n'] + (indent + rest);
    var d := Dedent(rest);
    BlankLineThen(indent, rest);
    DedentIndentedNewline(indent, t);
    assert Dedent(BlankLine(indent) + rest) == ['\n'] + Dedent(t);
    DedentIndentedNewline(indent, rest);
    TwoNewlines(d);
  }

  /** `DropSpaces` skips exactly a leading run of spaces. */
  lemma {:induction false} DropSpacesSkips(indent: string, rest: string)
    requires AllSpaces(indent) && (|rest| == 0 || rest[0] != ' ')
    ensures DropSpaces(indent + rest) == rest
    decreases |indent|
  {
    if |indent| > 0 {
      assert (indent + rest)[1..] == indent[1..] + rest;
      DropSpacesSkips(indent[1..], rest);
    } else {
      assert indent + rest == rest;
    }
  }

  /** A paragraph fit for a template literal: one line, not starting with a space. */
  predicate OneLine(p: string)
  {
    Avoids(p, '\n') && (|p| == 0 || p[0] != ' ')
  }

  /** Dedenting paragraphs joined by indented blank lines joins them by "\n\n". */
  lemma {:induction false} DedentJoin(ps: seq<string>, indent: string)
    requires |ps| >= 1 && forall k :: 0 <= k < |ps| ==> OneLine(ps[k])
    requires AllSpaces(indent)
    ensures Dedent(Join(ps, BlankLine(indent))) == Join(ps, "\n\n")
    decreases |ps|
  {
    var sep := BlankLine(indent);
    if |ps| == 1 {
      DedentPlain(ps[0], []);
      assert ps[0] + [] == ps[0];
    } else {
      var tail := Join(ps[1..], sep);
      assert Join(ps, sep) == ps[0] + (sep + tail);
      DedentPlain(ps[0], sep + tail);
      if |ps[1]| > 0 {
        assert tail[0] == ps[1][0];
      } else if |ps| > 2 {
        assert tail == sep + Join(ps[2..], sep);
      }
      DedentBlankLine(indent, tail);
      DedentJoin(ps[1..], indent);
    }
  }

  /**
   * Paragraphs written one per line with indented blank lines between them
   * come back one by one from `IntendedParagraphs`.
   */
  lemma IntendedParagraphsOfTemplate(ps: seq<string>)
    requires |ps| >= 1 && forall k :: 0 <= k < |ps| ==> OneLine(ps[k])
    ensures IntendedParagraphs(Join(ps, IndentedBlankLine())) == ps
  {
    assert AllSpaces(Indent());
    DedentJoin(ps, Indent());
    SplitJoinAvoiding(ps, "\n\n");
  }

  /**
   * The two-paragraph text "A." / "B." written as the page writes its
   * descriptions renders as one paragraph, where two were meant.
   */
  lemma TwoParagraphsRenderAsOne()
    ensures Paragraphs("A." + IndentedBlankLine() + "B.") == ["A." + IndentedBlankLine() + "B."]
    ensures IntendedParagraphs("A." + IndentedBlankLine() + "B.") == ["A.", "B."]
  {
    IndentedBlankLineKeepsOneParagraph("A.", "B.");
    assert Join(["A.", "B."], IndentedBlankLine()) == "A." + IndentedBlankLine() + "B.";
    IntendedParagraphsOfTemplate(["A.", "B."]);
  }
}
