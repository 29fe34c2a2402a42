/**
 * The text shaping of the chat assistant: the tool table and the help text
 * built from it, the last stage of the HTML clean-up (newline runs and
 * trimming), the reply assembled from tool results, the history trim, the
 * reply taken from a model answer without tool calls, the message
 * time-to-live read from the environment, and the access check on the
 * sender's chat id.
 */
module ChatShaping {
  import opened Text
  import opened Values
  import SessionStore

  // ---------------------------------------------------------------------------
  // Tools and help

  /** A tool the model may call; `display` says whether the help text lists it. */
  datatype Tool = Tool(name: string, display: bool, title: string, detail: string)

  const ToolTable: seq<Tool> :=
    [
      Tool("switchOnPlug", true, "Power On Zigbee Device",
        "Turns on a Zigbee-connected device. Example: Power on \"ada bedroom fan plug\". Device names must be enclosed in double quotation marks."),
      Tool("switchOffPlug", true, "Power Off Zigbee Device",
        "Turns off a Zigbee-connected device. Example: Power off \"ada bedroom fan plug\". Device names must be enclosed in double quotation marks."),
      Tool("showZigBeeDevicesList", true, "List All Zigbee Devices",
        "Displays comprehensive information about all connected Zigbee devices, including their current status and capabilities."),
      Tool("getAllTemperatureAndHumiditySensor", true, "Get All Temperature & Humidity Readings",
        "Shows current temperature and humidity data from all environmental sensors. Example: \"Show all temperature devices\" or \"Display humidity readings\"."),
      Tool("showHelp", true, "Display Help Menu",
        "Shows available commands and usage instructions. Example: \"Help\" or \"?\"."),
      Tool("showZigBeeDeviceByName", true, "Get Device Profile by device Name",
        "Retrieves detailed information about a specific device using its device name. Example: Get \"ada bedroom\" information. Names should be quoted."),
      Tool("getDeviceState", true, "Get Device Current State",
        "Retrieves the current operational state of a device. Example: Get \"ada bedroom\" device state. Device names should be quoted."),
      Tool("clickButton", true, "Toggle Device State",
        "Switches a device between on and off states. Example: Press the \"ada room fan\" button."),
      Tool("findStorageBoxsItem", true, "Find Items in Storage Boxes",
        "Locates stored items across all storage boxes managed by Housekeeper Bee. Example: Find \"USB cable\" from storage boxes, or Find items belonging to Thomas."),
      Tool("showAllStorageBoxes", false, "List All Storage Boxes",
        "Displays all storage boxes managed by Housekeeper Bee with optional filtering and detail levels."),
      Tool("getHseBeeSrvState", true, "Get Housekeeper Bee Server Status",
        "Displays the current status and health of the Housekeeper Bee server system. Example: Show Bee status."),
      Tool("countStorageBoxes", false, "Count Storage Boxes",
        "Returns the total number of storage boxes matching the specified criteria."),
      Tool("deletePromptHistory", true, "Clear user prompt history",
        "It delete all user prompt history from redis database.")
    ]

  const HelpHeader := "==== Function List ===="
  const HelpFooter := "To use Housekeeper Bee server tools, please set HOUSEKEEPER\\_BEE\\_ENABLED to true from .env.prod file."

  /** The tools the help lists, in table order. */
  function Displayed(tools: seq<Tool>): (r: seq<Tool>)
    ensures |r| <= |tools|
    ensures forall t :: t in r <==> t in tools && t.display
  {
    if tools == [] then []
    else if tools[0].display then [tools[0]] + Displayed(tools[1..])
    else Displayed(tools[1..])
  }

  /**
   * The `forEach` of `showHelp`: three lines per displayed tool, numbered by a
   * counter that only displayed tools advance.
   */
  function HelpEntries(tools: seq<Tool>, counter: nat): (lines: seq<string>)
    ensures |lines| == 3 * |Displayed(tools)|
    decreases |tools|
  {
    if tools == [] then []
    else if tools[0].display then
      [NatText(counter) + ". " + tools[0].title, tools[0].detail, ""] + HelpEntries(tools[1..], counter + 1)
    else HelpEntries(tools[1..], counter)
  }

  function HelpLines(tools: seq<Tool>): seq<string> {
    [HelpHeader] + HelpEntries(tools, 1) + [HelpFooter]
  }

  /**
   * `showHelp()`: the help lines joined by newlines, opening with the header
   * line and closing with the footer line.
   */
  function ShowHelp(): (help: string)
    ensures StartsWith(help, HelpHeader + "\n")
    ensures EndsWith(help, "\n" + HelpFooter)
  {
    HelpText(ToolTable);
    Join(HelpLines(ToolTable), "\n")
  }

  /** Whatever the table, the joined help opens with the header line and closes with the footer line. */
  lemma HelpText(tools: seq<Tool>)
    ensures StartsWith(Join(HelpLines(tools), "\n"), HelpHeader + "\n")
    ensures EndsWith(Join(HelpLines(tools), "\n"), "\n" + HelpFooter)
  {
    FramedJoin(HelpHeader, HelpEntries(tools, 1), HelpFooter, "\n");
  }

  /**
   * The k-th displayed tool is listed under the number `n == counter + k`:
   * the numbering has no gaps where hidden tools sit.
   */
  lemma {:induction false} HelpEntriesNumbering(tools: seq<Tool>, counter: nat, k: nat, n: nat)
    requires k < |Displayed(tools)| && n == counter + k
    ensures HelpEntries(tools, counter)[3 * k] == NatText(n) + ". " + Displayed(tools)[k].title
    ensures HelpEntries(tools, counter)[3 * k + 1] == Displayed(tools)[k].detail
    ensures HelpEntries(tools, counter)[3 * k + 2] == ""
    decreases |tools|
  {
    var t := tools[0];
    var rest := tools[1..];
    if t.display {
      var head := [NatText(counter) + ". " + t.title, t.detail, ""];
      assert HelpEntries(tools, counter) == head + HelpEntries(rest, counter + 1);
      assert Displayed(tools) == [t] + Displayed(rest);
      if k > 0 {
        HelpEntriesNumbering(rest, counter + 1, k - 1, n);
        assert 3 * k == 3 + 3 * (k - 1);
      }
    } else {
      assert HelpEntries(tools, counter) == HelpEntries(rest, counter);
      assert Displayed(tools) == Displayed(rest);
      HelpEntriesNumbering(rest, counter, k, n);
    }
  }

  lemma {:induction false} DisplayedAppend(a: seq<Tool>, b: seq<Tool>)
    ensures Displayed(a + b) == Displayed(a) + Displayed(b)
    decreases |a|
  {
    if a != [] {
      assert (a + b)[1..] == a[1..] + b;
      DisplayedAppend(a[1..], b);
    } else {
      assert a + b == b;
    }
  }

  lemma {:induction false} DisplayedAll(tools: seq<Tool>)
    requires forall i :: 0 <= i < |tools| ==> tools[i].display
    ensures Displayed(tools) == tools
    decreases |tools|
  {
    if tools != [] {
      DisplayedAll(tools[1..]);
    }
  }

  /** Which tools of the table the help hides. */
  lemma ToolTableFlags()
    ensures |ToolTable| == 13
    ensures !ToolTable[9].display && ToolTable[9].name == "showAllStorageBoxes"
    ensures !ToolTable[11].display && ToolTable[11].name == "countStorageBoxes"
    ensures forall i :: 0 <= i < |ToolTable| && i != 9 && i != 11 ==> ToolTable[i].display
  {
  }

  /** Thirteen tools of which exactly the tenth and twelfth are hidden list eleven. */
  lemma ElevenOfThirteen(t: seq<Tool>)
    requires |t| == 13
    requires !t[9].display && !t[11].display
    requires forall i :: 0 <= i < |t| && i != 9 && i != 11 ==> t[i].display
    ensures |Displayed(t)| == 11
  {
    var a, b, c, d, e := t[..9], [t[9]], [t[10]], [t[11]], [t[12]];
    assert t == a + b + c + d + e;
    DisplayedAll(a);
    DisplayedAll(c);
    DisplayedAll(e);
    DisplayedAppend(a + b + c + d, e);
    DisplayedAppend(a + b + c, d);
    DisplayedAppend(a + b, c);
    DisplayedAppend(a, b);
  }

  /** The help lists every tool but the two storage-box helpers, eleven in all. */
  lemma HelpListsElevenTools()
    ensures |Displayed(ToolTable)| == 11
    ensures |HelpLines(ToolTable)| == 35
  {
    ToolTableFlags();
    ElevenOfThirteen(ToolTable);
  }

  /** The help's lines are its entries between the header and the footer. */
  lemma HelpLineOfEntry(tools: seq<Tool>, j: nat)
    requires j < 3 * |Displayed(tools)|
    ensures HelpLines(tools)[1 + j] == HelpEntries(tools, 1)[j]
  {
  }

  /** Line `1 + 3k` of the help is the k-th displayed tool's number and title. */
  lemma HelpTitleLine(tools: seq<Tool>, k: nat)
    requires k < |Displayed(tools)|
    ensures HelpLines(tools)[1 + 3 * k] == NatText(k + 1) + ". " + Displayed(tools)[k].title
    ensures HelpLines(tools)[2 + 3 * k] == Displayed(tools)[k].detail
  {
    var entries := HelpEntries(tools, 1);
    var i := 3 * k;
    HelpEntriesNumbering(tools, 1, k, k + 1);
    assert entries[i] == NatText(k + 1) + ". " + Displayed(tools)[k].title;
    assert entries[i + 1] == Displayed(tools)[k].detail;
    HelpLineOfEntry(tools, i);
    HelpLineOfEntry(tools, i + 1);
  }

  // ---------------------------------------------------------------------------
  // The last stage of the HTML clean-up

  /** No three newlines in a row. */
  predicate NoTripleNewline(s: string) {
    forall i :: 0 <= i < |s| - 2 ==> !TripleAt(s, i)
  }

  /** Three newlines follow each other from position `i` on. */
  predicate TripleAt(s: string, i: int) {
    0 <= i < |s| - 2 && s[i] == '\n' && s[i + 1] == '\n' && s[i + 2] == '\n'
  }

  /** Length of the run of newlines at the start of `s`. */
  function NewlineRun(s: string): (k: nat)
    ensures k <= |s|
    ensures forall j :: 0 <= j < k ==> s[j] == '\n'
    ensures k < |s| ==> s[k] != '\n'
  {
    if s != [] && s[0] == '\n' then 1 + NewlineRun(s[1..]) else 0
  }

  /** `s.replace(/\n{3,}/g, '\n\n')`: every run of three or more newlines becomes two. */
  function CollapseNewlines(s: string): (r: string)
    ensures r == [] <==> s == []
    ensures r != [] ==> (r[0] == '\n' <==> s[0] == '\n')
    decreases |s|
  {
    if s == [] then []
    else if s[0] != '\n' then [s[0]] + CollapseNewlines(s[1..])
    else
      var k := NewlineRun(s);
      CollapsedRun(s[..k]) + CollapseNewlines(s[k..])
  }

  /** What a run of newlines becomes: two newlines when it has three or more. */
  function CollapsedRun(run: string): (r: string)
    ensures |r| <= 2
    ensures r == run || r == "\n\n"
  {
    if |run| >= 3 then "\n\n" else run
  }

  /** The text with its newlines removed. */
  function WithoutNewlines(s: string): (r: string)
    ensures '\n' !in r
  {
    if s == [] then [] else (if s[0] == '\n' then [] else [s[0]]) + WithoutNewlines(s[1..])
  }

  lemma {:induction false} WithoutNewlinesAppend(a: string, b: string)
    ensures WithoutNewlines(a + b) == WithoutNewlines(a) + WithoutNewlines(b)
    decreases |a|
  {
    if a != [] {
      assert (a + b)[1..] == a[1..] + b;
      WithoutNewlinesAppend(a[1..], b);
    } else {
      assert a + b == b;
    }
  }

  lemma {:induction false} NewlinesOnly(s: string)
    requires forall j :: 0 <= j < |s| ==> s[j] == '\n'
    ensures WithoutNewlines(s) == []
    decreases |s|
  {
    if s != [] {
      NewlinesOnly(s[1..]);
    }
  }

  /** Collapsing touches only newlines: every other character stays, in order. */
  lemma {:induction false} CollapseKeepsText(s: string)
    ensures WithoutNewlines(CollapseNewlines(s)) == WithoutNewlines(s)
    decreases |s|
  {
    if s != [] {
      if s[0] != '\n' {
        CollapseKeepsText(s[1..]);
        KeepsTextAfterChar(s);
      } else {
        CollapseKeepsText(s[NewlineRun(s)..]);
        KeepsTextAfterRun(s);
      }
    }
  }

  /** The step of `CollapseKeepsText` past a character that is not a newline. */
  lemma KeepsTextAfterChar(s: string)
    requires s != [] && s[0] != '\n'
    requires WithoutNewlines(CollapseNewlines(s[1..])) == WithoutNewlines(s[1..])
    ensures WithoutNewlines(CollapseNewlines(s)) == WithoutNewlines(s)
  {
    var head, rest := [s[0]], s[1..];
    CollapseCharStep(s);
    WithoutNewlinesAppend(head, CollapseNewlines(rest));
    WithoutNewlinesAppend(head, rest);
    assert head + rest == s;
  }

  /** The step of `CollapseKeepsText` past a run of newlines. */
  lemma KeepsTextAfterRun(s: string)
    requires s != [] && s[0] == '\n'
    requires WithoutNewlines(CollapseNewlines(s[NewlineRun(s)..])) == WithoutNewlines(s[NewlineRun(s)..])
    ensures WithoutNewlines(CollapseNewlines(s)) == WithoutNewlines(s)
  {
    var k := NewlineRun(s);
    var run, rest := s[..k], s[k..];
    TakeDrop(s, k);
    CollapseRunStep(s);
    RunVanishes(run);
    WithoutNewlinesAppend(CollapsedRun(run), CollapseNewlines(rest));
    WithoutNewlinesAppend(run, rest);
  }

  /** A run of newlines and what it collapses to both vanish without newlines. */
  lemma RunVanishes(run: string)
    requires forall j :: 0 <= j < |run| ==> run[j] == '\n'
    ensures WithoutNewlines(run) == [] && WithoutNewlines(CollapsedRun(run)) == []
  {
    NewlinesOnly(run);
    NewlinesOnly("\n\n");
  }

  /** A short run of newlines followed by text that does not start with one keeps the property. */
  lemma NoTripleAfterBlock(block: string, rest: string)
    requires |block| <= 2 && NoTripleNewline(rest)
    requires rest != [] ==> rest[0] != '\n'
    ensures NoTripleNewline(block + rest)
  {
    var t := block + rest;
    forall i | 0 <= i < |t| - 2
      ensures !TripleAt(t, i)
    {
      if i >= |block| {
        assert t[i] == rest[i - |block|] && t[i + 1] == rest[i - |block| + 1] && t[i + 2] == rest[i - |block| + 2];
        assert !TripleAt(rest, i - |block|);
      } else {
        var j := |block| - i;
        assert 1 <= j <= 2;
        assert t[i + j] == rest[0];
      }
    }
  }

  /** After collapsing, no three newlines follow each other. */
  lemma {:induction false} CollapseLeavesNoTriple(s: string)
    ensures NoTripleNewline(CollapseNewlines(s))
    decreases |s|
  {
    if s != [] {
      if s[0] != '\n' {
        CollapseLeavesNoTriple(s[1..]);
        var rest := CollapseNewlines(s[1..]);
        var t := [s[0]] + rest;
        forall i | 0 <= i < |t| - 2
          ensures !TripleAt(t, i)
        {
          if i > 0 {
            assert t[i] == rest[i - 1] && t[i + 1] == rest[i] && t[i + 2] == rest[i + 1];
            assert !TripleAt(rest, i - 1);
          }
        }
      } else {
        var k := NewlineRun(s);
        CollapseLeavesNoTriple(s[k..]);
        var block := CollapsedRun(s[..k]);
        NoTripleAfterBlock(block, CollapseNewlines(s[k..]));
      }
    }
  }

  lemma NoTripleSlice(s: string, i: nat, j: nat)
    requires i <= j <= |s| && NoTripleNewline(s)
    ensures NoTripleNewline(s[i..j])
  {
    var t := s[i..j];
    forall k | 0 <= k < |t| - 2
      ensures !TripleAt(t, k)
    {
      assert t[k] == s[i + k] && t[k + 1] == s[i + k + 1] && t[k + 2] == s[i + k + 2];
      assert !TripleAt(s, i + k);
    }
  }

  /** Text without a triple newline starts with at most two newlines. */
  lemma ShortRun(s: string)
    requires NoTripleNewline(s)
    ensures NewlineRun(s) <= 2
  {
    if |s| >= 3 {
      assert !TripleAt(s, 0);
    }
  }

  /** Text without a triple newline is left as it is. */
  lemma {:induction false} CollapseFixesNoTriple(s: string)
    requires NoTripleNewline(s)
    ensures CollapseNewlines(s) == s
    decreases |s|
  {
    if s != [] {
      if s[0] != '\n' {
        var rest := s[1..];
        CollapseCharStep(s);
        NoTripleSlice(s, 1, |s|);
        assert s[1..|s|] == rest;
        CollapseFixesNoTriple(rest);
        assert [s[0]] + rest == s;
      } else {
        var k := NewlineRun(s);
        var run, rest := s[..k], s[k..];
        TakeDrop(s, k);
        CollapseRunStep(s);
        ShortRun(s);
        assert CollapsedRun(run) == run;
        NoTripleSlice(s, k, |s|);
        assert s[k..|s|] == rest;
        CollapseFixesNoTriple(rest);
      }
    }
  }

  /** One unfolding of `CollapseNewlines` at a character that is not a newline. */
  lemma CollapseCharStep(s: string)
    requires s != [] && s[0] != '\n'
    ensures CollapseNewlines(s) == [s[0]] + CollapseNewlines(s[1..])
  {
  }

  /** One unfolding of `CollapseNewlines` at a run of newlines. */
  lemma CollapseRunStep(s: string)
    requires s != [] && s[0] == '\n'
    ensures CollapseNewlines(s) == CollapsedRun(s[..NewlineRun(s)]) + CollapseNewlines(s[NewlineRun(s)..])
  {
  }

  /** Collapsing twice is collapsing once. */
  lemma CollapseIdempotent(s: string)
    ensures CollapseNewlines(CollapseNewlines(s)) == CollapseNewlines(s)
  {
    CollapseLeavesNoTriple(s);
    CollapseFixesNoTriple(CollapseNewlines(s));
  }

  /** The newline clean-up and the final `trim()` of `sanitizeHtmlForTelegram`. */
  function SanitizeTail(s: string): (r: string)
    ensures NoTripleNewline(r)
    ensures r != [] ==> !IsSpace(r[0]) && !IsSpace(r[|r| - 1])
  {
    var c := CollapseNewlines(s);
    CollapseLeavesNoTriple(s);
    TrimKeepsNoTriple(c);
    Trim(c)
  }

  /** Trimming cuts a slice out of the text, so it adds no triple newline. */
  lemma TrimKeepsNoTriple(c: string)
    requires NoTripleNewline(c)
    ensures NoTripleNewline(Trim(c))
  {
    TrimSlice(c);
    var lo := LeadingSpaces(c);
    var hi := lo + |Trim(c)|;
    NoTripleSlice(c, lo, hi);
    assert Trim(c) == c[lo..hi];
  }

  // ---------------------------------------------------------------------------
  // Tool results

  /**
   * `results.filter((item, index) => results.indexOf(item) === index)`: an
   * element is kept when it does not occur earlier.
   */
  function FirstOccurrences(s: seq<string>): (r: seq<string>)
    ensures |r| <= |s|
    decreases |s|
  {
    if s == [] then []
    else
      var init := s[..|s| - 1];
      if s[|s| - 1] in init then FirstOccurrences(init) else FirstOccurrences(init) + [s[|s| - 1]]
  }

  predicate Distinct(s: seq<string>) {
    forall i, j :: 0 <= i < j < |s| ==> s[i] != s[j]
  }

  /** The kept elements are distinct and are exactly the elements of the input. */
  lemma {:induction false} FirstOccurrencesContents(s: seq<string>)
    ensures Distinct(FirstOccurrences(s))
    ensures forall x :: x in FirstOccurrences(s) <==> x in s
    decreases |s|
  {
    if s != [] {
      var init := s[..|s| - 1];
      FirstOccurrencesContents(init);
      assert s == init + [s[|s| - 1]];
    }
  }

  /** A list without repeats is kept whole. */
  lemma {:induction false} FirstOccurrencesOfDistinct(s: seq<string>)
    requires Distinct(s)
    ensures FirstOccurrences(s) == s
    decreases |s|
  {
    if s != [] {
      var init := s[..|s| - 1];
      FirstOccurrencesOfDistinct(init);
      assert s == init + [s[|s| - 1]];
    }
  }

  /** The de-duplication as the tool loop computes it, one index at a time. */
  method DeduplicateResults(results: seq<string>) returns (kept: seq<string>)
    ensures kept == FirstOccurrences(results)
    ensures Distinct(kept)
    ensures forall x :: x in kept <==> x in results
  {
    kept := [];
    var i := 0;
    while i < |results|
      invariant 0 <= i <= |results|
      invariant kept == FirstOccurrences(results[..i])
    {
      assert results[..i + 1][..i] == results[..i];
      if results[i] !in results[..i] {
        kept := kept + [results[i]];
      }
      i := i + 1;
    }
    assert results[..i] == results;
    FirstOccurrencesContents(results);
  }

  /**
   * The reply after tool calls: the distinct results, one per line. When no
   * result spans lines, splitting the reply gives the distinct results back
   * in the order they first came.
   */
  function ToolResultsReply(results: seq<string>): (reply: string)
    ensures results != [] && (forall i :: 0 <= i < |results| ==> '\n' !in results[i]) ==>
      Split(reply, '\n') == FirstOccurrences(results) && Distinct(Split(reply, '\n'))
  {
    FirstOccurrencesContents(results);
    if results != [] && (forall i :: 0 <= i < |results| ==> '\n' !in results[i]) then
      ToolResultsLines(results);
      Join(FirstOccurrences(results), "\n")
    else Join(FirstOccurrences(results), "\n")
  }

  lemma ToolResultsLines(results: seq<string>)
    requires results != [] && forall i :: 0 <= i < |results| ==> '\n' !in results[i]
    ensures Split(Join(FirstOccurrences(results), "\n"), '\n') == FirstOccurrences(results)
  {
    var kept := FirstOccurrences(results);
    KeptSingleLine(results);
    SplitJoin(kept, '\n');
  }

  /** The kept results are single lines when every result is, and there is one at least. */
  lemma KeptSingleLine(results: seq<string>)
    requires results != [] && forall i :: 0 <= i < |results| ==> '\n' !in results[i]
    ensures |FirstOccurrences(results)| >= 1
    ensures forall i :: 0 <= i < |FirstOccurrences(results)| ==> '\n' !in FirstOccurrences(results)[i]
  {
    var kept := FirstOccurrences(results);
    FirstOccurrencesContents(results);
    assert results[0] in kept;
    forall i | 0 <= i < |kept|
      ensures '\n' !in kept[i]
    {
      assert kept[i] in results;
      var j :| 0 <= j < |results| && results[j] == kept[i];
    }
  }

  // ---------------------------------------------------------------------------
  // History trim

  const HistoryCut := 5

  /** `if (messages.length > 5) messages.splice(0, 5)`: the five oldest messages go. */
  function TrimHistory<T>(messages: seq<T>): (r: seq<T>)
    ensures |r| <= |messages| && r == messages[|messages| - |r|..]
    ensures |messages| > HistoryCut ==> |r| == |messages| - HistoryCut
    ensures |messages| <= HistoryCut ==> r == messages
  {
    if |messages| > HistoryCut then messages[HistoryCut..] else messages
  }

  /**
   * The cut is fixed, not a cap: when a turn adds at most five messages the
   * stored history never grows past the larger of five and its old length,
   * and when a turn adds more it grows every time.
   */
  lemma HistoryGrowth<T>(history: seq<T>, added: seq<T>)
    ensures |added| <= HistoryCut ==> |TrimHistory(history + added)| <= if |history| > HistoryCut then |history| else HistoryCut
    ensures |added| > HistoryCut ==> |TrimHistory(history + added)| > |history|
  {
  }

  // ---------------------------------------------------------------------------
  // Reply without tool calls

  /** The model's answer: no message at all, or a message whose content may be missing. */
  datatype ModelMessage = NoMessage | Message(content: Option<string>)

  /** Index of the last line that is not blank after trimming, or -1. */
  function LastNonBlank(lines: seq<string>): (k: int)
    ensures -1 <= k < |lines|
    ensures k >= 0 ==> Trim(lines[k]) != ""
    ensures forall j :: k < j < |lines| ==> Trim(lines[j]) == ""
    decreases |lines|
  {
    if lines == [] then -1
    else
      var last := |lines| - 1;
      if Trim(lines[last]) != "" then last
      else
        var init := lines[..last];
        assert forall j :: 0 <= j < last ==> init[j] == lines[j];
        LastNonBlank(init)
  }

  /** `lines.filter(line => line.trim() !== '')`. */
  function NonBlankLines(lines: seq<string>): (kept: seq<string>)
    decreases |lines|
  {
    if lines == [] then []
    else (if Trim(lines[0]) != "" then [lines[0]] else []) + NonBlankLines(lines[1..])
  }

  /** The filter works piece by piece. */
  lemma {:induction false} NonBlankLinesAppend(a: seq<string>, b: seq<string>)
    ensures NonBlankLines(a + b) == NonBlankLines(a) + NonBlankLines(b)
    decreases |a|
  {
    if a == [] {
      assert a + b == b;
    } else {
      var head := if Trim(a[0]) != "" then [a[0]] else [];
      assert NonBlankLines(a + b) == head + NonBlankLines(a[1..] + b) by {
        assert (a + b)[0] == a[0];
        assert (a + b)[1..] == a[1..] + b;
      }
      NonBlankLinesAppend(a[1..], b);
    }
  }

  /**
   * `pop()` of the filtered lines is the line `LastNonBlank` finds, and the
   * filter is empty exactly when there is none.
   */
  lemma {:induction false} PopIsLastNonBlank(lines: seq<string>)
    ensures var kept := NonBlankLines(lines);
      && (kept == [] <==> LastNonBlank(lines) == -1)
      && (kept != [] ==> kept[|kept| - 1] == lines[LastNonBlank(lines)])
    decreases |lines|
  {
    if lines != [] {
      var last := |lines| - 1;
      var init := lines[..last];
      assert lines == init + [lines[last]];
      NonBlankLinesAppend(init, [lines[last]]);
      assert NonBlankLines([lines[last]]) == (if Trim(lines[last]) != "" then [lines[last]] else []) + NonBlankLines([]);
      if Trim(lines[last]) == "" {
        PopIsLastNonBlank(init);
        assert LastNonBlank(lines) == LastNonBlank(init);
      }
    }
  }

  /** How a chat turn ends: its reply (None is `undefined`), and whether the `catch` deleted the chat's session. */
  datatype ChatEnd = ChatEnd(reply: Option<string>, dropsSession: bool)

  const ErrorReplyPrefix := "Oops! Something Wrong! "

  /**
   * The end of a turn in which the model called no tool. A missing message
   * never reaches the `data.message == null` test: reading its `tool_calls`
   * throws first, and the `catch` replies with the error's text and deletes
   * the chat's session. `thrown` is that text (`String(error)` of the
   * TypeError), whose wording belongs to the JavaScript engine. With a
   * message, the reply is the last non-blank line of its content, or
   * `undefined` when every line is blank.
   */
  function NoToolReply(m: ModelMessage, thrown: string): (e: ChatEnd)
    ensures m.NoMessage? <==> e.dropsSession
    ensures m.NoMessage? ==> e.reply == Some(ErrorReplyPrefix + thrown)
    ensures m.Message? && (m.content.None? || m.content.value == "") ==> e.reply == Some("Sorry I don't know.")
    ensures m.Message? && m.content.Some? && m.content.value != "" ==> e.reply == LastLine(Split(m.content.value, '\n'))
  {
    match m
    case NoMessage => ChatEnd(Some(ErrorReplyPrefix + thrown), true)
    case Message(content) =>
      if content.None? || content.value == "" then ChatEnd(Some("Sorry I don't know."), false)
      else ChatEnd(LastLine(Split(content.value, '\n')), false)
  }

  /**
   * `lines.filter(line => line.trim() !== '').pop()`: the last non-blank
   * line, or None (`undefined`) exactly when every line is blank.
   */
  function LastLine(lines: seq<string>): (r: Option<string>)
    ensures var kept := NonBlankLines(lines); r == if kept == [] then None else Some(kept[|kept| - 1])
    ensures r.None? <==> forall j :: 0 <= j < |lines| ==> Trim(lines[j]) == ""
    ensures r.Some? ==>
      exists k :: 0 <= k < |lines| && r.value == lines[k] && Trim(lines[k]) != "" && (forall j :: k < j < |lines| ==> Trim(lines[j]) == "")
  {
    var k := LastNonBlank(lines);
    PopIsLastNonBlank(lines);
    if k < 0 then None else Some(lines[k])
  }

  /** The chat's session store as the turn leaves it. */
  function SessionAfter(s: SessionStore.Store, r: SessionStore.Redis, chatId: string, e: ChatEnd): (r': SessionStore.Redis)
    ensures !e.dropsSession ==> r' == r
    ensures e.dropsSession ==> SessionStore.Key(s, chatId) !in r'
  {
    if e.dropsSession then SessionStore.Del(s, r, chatId).redis else r
  }

  /**
   * A reply without a message wipes the chat's history: the next turn reads
   * it back as empty.
   */
  lemma MissingMessageDropsHistory<T>(r: SessionStore.Redis, chatId: string, thrown: string, parse: string -> Option<seq<T>>)
    ensures var s := SessionStore.NewStore("telegram", None);
      var e := NoToolReply(NoMessage, thrown);
      && e.reply == Some(ErrorReplyPrefix + thrown)
      && SessionStore.GetArray(s, SessionAfter(s, r, chatId, e), chatId, parse) == Some([])
  {
    var s := SessionStore.NewStore("telegram", None);
    SessionStore.DelThenGetArray(s, r, chatId, parse);
  }

  /** Content made only of white space yields `undefined`, not a fallback text. */
  lemma BlankContentIsUndefined(content: string)
    requires content != [] && forall i :: 0 <= i < |content| ==> IsSpace(content[i])
    ensures NoToolReply(Message(Some(content)), "").reply == None
  {
    BlankLines(content);
    assert LastLine(Split(content, '\n')).None?;
  }

  /** Every line of white-space content trims to nothing. */
  lemma BlankLines(content: string)
    requires forall i :: 0 <= i < |content| ==> IsSpace(content[i])
    ensures forall j :: 0 <= j < |Split(content, '\n')| ==> Trim(Split(content, '\n')[j]) == ""
  {
    var lines := Split(content, '\n');
    forall j | 0 <= j < |lines|
      ensures Trim(lines[j]) == ""
    {
      SplitPartsAreSlices(content, '\n', j);
      var line := lines[j];
      assert forall c :: c in line ==> IsSpace(c);
    }
  }

  /** Every piece of `Split(s, c)` is made of characters of `s`. */
  lemma {:induction false} SplitPartsAreSlices(s: string, c: char, j: nat)
    requires j < |Split(s, c)|
    ensures forall x :: x in Split(s, c)[j] ==> x in s
    decreases |s|
  {
    var i := IndexOf(s, c);
    SplitHead(s, c);
    if j == 0 {
      SliceChars(s, 0, i);
    } else {
      var tail := s[i + 1..];
      assert Split(s, c)[j] == Split(tail, c)[j - 1];
      SplitPartsAreSlices(tail, c, j - 1);
      SliceChars(s, i + 1, |s|);
    }
  }

  /** A slice holds only characters of the whole. */
  lemma SliceChars(s: string, lo: nat, hi: nat)
    requires lo <= hi <= |s|
    ensures forall x :: x in s[lo..hi] ==> x in s
  {
    forall x | x in s[lo..hi] ensures x in s {
      var k :| 0 <= k < hi - lo && s[lo..hi][k] == x;
      assert s[lo + k] == x;
    }
  }

  // ---------------------------------------------------------------------------
  // Message time-to-live

  const DefaultTtlMinutes := 15
  const MinTtlMinutes := 5
  const MaxTtlMinutes := 720

  /**
   * `TLG_TTL_IN_MINUTE || 15`, kept when it lies in [5, 720] and replaced
   * by 15 otherwise. `setting` is the environment variable, if set.
   */
  function TtlMinutes(setting: Option<string>): (r: Num)
    ensures r.Finite? && MinTtlMinutes as real <= r.r <= MaxTtlMinutes as real
    ensures setting.None? || setting == Some("") ==> r == Finite(DefaultTtlMinutes as real)
    ensures setting.Some? && setting.value != "" && InTtlRange(NumberOf(setting.value)) ==> r == NumberOf(setting.value)
    ensures setting.Some? && setting.value != "" && !InTtlRange(NumberOf(setting.value)) ==> r == Finite(DefaultTtlMinutes as real)
  {
    var n := if setting.Some? && setting.value != "" then NumberOf(setting.value) else Finite(DefaultTtlMinutes as real);
    if InTtlRange(n) then n else Finite(DefaultTtlMinutes as real)
  }

  /** `v >= 5 && v <= 720`, false for NaN. */
  predicate InTtlRange(n: Num) {
    AtLeast(n, Finite(MinTtlMinutes as real)) && AtMost(n, Finite(MaxTtlMinutes as real))
  }

  /** A setting that is not a number, or is out of range, falls back to 15 minutes. */
  lemma TtlFallback(setting: string)
    requires setting != ""
    requires NumberOf(setting).NaN? || NumberOf(setting).r < MinTtlMinutes as real || NumberOf(setting).r > MaxTtlMinutes as real
    ensures TtlMinutes(Some(setting)) == Finite(DefaultTtlMinutes as real)
  {
  }

  /** A plain decimal setting in range is used as written. */
  lemma TtlFromDigits(n: nat)
    requires MinTtlMinutes <= n <= MaxTtlMinutes
    ensures TtlMinutes(Some(NatText(n))) == Finite(n as real)
  {
    NumberOfNatText(n);
  }

  // ---------------------------------------------------------------------------
  // Access check

  /** `chatId == msg.chat.id` with a numeric sender id: loose equality with a number. */
  predicate LooselyEquals(v: JsValue, sender: real) {
    !v.JNull? && !v.JUndefined? && ToNumber(v) == Finite(sender)
  }

  /** Position `i` holds a matching id, and no other position does. */
  ghost predicate OnlyMatchAt(ids: seq<JsValue>, sender: real, i: int) {
    && 0 <= i < |ids|
    && LooselyEquals(ids[i], sender)
    && forall j :: 0 <= j < |ids| && j != i ==> !LooselyEquals(ids[j], sender)
  }

  /** How many configured ids match the sender. */
  function Matches(ids: seq<JsValue>, sender: real): (n: nat)
    ensures n <= |ids|
  {
    if ids == [] then 0
    else (if LooselyEquals(ids[0], sender) then 1 else 0) + Matches(ids[1..], sender)
  }

  /**
   * `matchedChatId.length == 1`: access needs exactly one matching entry, so
   * an id listed twice locks its owner out.
   */
  function Allowed(ids: seq<JsValue>, sender: real): (ok: bool)
    ensures ok <==> exists i :: OnlyMatchAt(ids, sender, i)
    ensures forall i, j :: 0 <= i < j < |ids| && LooselyEquals(ids[i], sender) && LooselyEquals(ids[j], sender) ==> !ok
  {
    AccessNeedsExactlyOneMatch(ids, sender);
    Matches(ids, sender) == 1
  }

  lemma {:induction false} MatchesPositive(ids: seq<JsValue>, sender: real, i: nat)
    requires i < |ids| && LooselyEquals(ids[i], sender)
    ensures Matches(ids, sender) >= 1
  {
    if i > 0 {
      MatchesPositive(ids[1..], sender, i - 1);
    }
  }

  lemma {:induction false} MatchesAtLeastTwo(ids: seq<JsValue>, sender: real, i: nat, j: nat)
    requires i < j < |ids| && LooselyEquals(ids[i], sender) && LooselyEquals(ids[j], sender)
    ensures Matches(ids, sender) >= 2
  {
    if i > 0 {
      MatchesAtLeastTwo(ids[1..], sender, i - 1, j - 1);
    } else {
      MatchesPositive(ids[1..], sender, j - 1);
    }
  }

  lemma {:induction false} NoMatchesNone(ids: seq<JsValue>, sender: real)
    requires forall i :: 0 <= i < |ids| ==> !LooselyEquals(ids[i], sender)
    ensures Matches(ids, sender) == 0
  {
    if ids != [] {
      NoMatchesNone(ids[1..], sender);
    }
  }

  /** A sender matched at one position only is counted once. */
  lemma {:induction false} OnlyMatchCountsOne(ids: seq<JsValue>, sender: real, i: int)
    requires OnlyMatchAt(ids, sender, i)
    ensures Matches(ids, sender) == 1
  {
    if i > 0 {
      assert !LooselyEquals(ids[0], sender);
      assert OnlyMatchAt(ids[1..], sender, i - 1) by {
        forall j | 0 <= j < |ids[1..]| && j != i - 1
          ensures !LooselyEquals(ids[1..][j], sender)
        {
          assert ids[1..][j] == ids[j + 1];
        }
      }
      OnlyMatchCountsOne(ids[1..], sender, i - 1);
    } else {
      forall j | 0 <= j < |ids[1..]|
        ensures !LooselyEquals(ids[1..][j], sender)
      {
        assert ids[1..][j] == ids[j + 1];
      }
      NoMatchesNone(ids[1..], sender);
    }
  }

  /**
   * Access is granted exactly when one configured id matches: an id listed
   * twice (even once as text and once as a number) locks its owner out.
   */
  lemma AccessNeedsExactlyOneMatch(ids: seq<JsValue>, sender: real)
    ensures Matches(ids, sender) == 1 <==> exists i :: OnlyMatchAt(ids, sender, i)
    ensures forall i, j :: 0 <= i < j < |ids| && LooselyEquals(ids[i], sender) && LooselyEquals(ids[j], sender) ==> Matches(ids, sender) != 1
  {
    if Matches(ids, sender) == 1 {
      if forall i :: 0 <= i < |ids| ==> !LooselyEquals(ids[i], sender) {
        NoMatchesNone(ids, sender);
      }
      var i :| 0 <= i < |ids| && LooselyEquals(ids[i], sender);
      forall j | 0 <= j < |ids| && j != i
        ensures !LooselyEquals(ids[j], sender)
      {
        if LooselyEquals(ids[j], sender) {
          if i < j {
            MatchesAtLeastTwo(ids, sender, i, j);
          } else {
            MatchesAtLeastTwo(ids, sender, j, i);
          }
        }
      }
      assert OnlyMatchAt(ids, sender, i);
    }
    if i :| OnlyMatchAt(ids, sender, i) {
      OnlyMatchCountsOne(ids, sender, i);
    }
    forall i, j | 0 <= i < j < |ids| && LooselyEquals(ids[i], sender) && LooselyEquals(ids[j], sender)
      ensures Matches(ids, sender) != 1
    {
      MatchesAtLeastTwo(ids, sender, i, j);
    }
  }

  /** A single listed id, as text or as a number, grants access to that sender. */
  lemma SingleIdGrants(n: nat)
    ensures Allowed([JStr(NatText(n))], n as real)
    ensures Allowed([JNum(Finite(n as real))], n as real)
    ensures !Allowed([JStr(NatText(n)), JNum(Finite(n as real))], n as real)
  {
    NumberOfNatText(n);
  }
}
