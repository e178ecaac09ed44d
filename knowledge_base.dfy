/**
 The knowledge-base lookup of the Grace agent (`load_kb_section`): find the line
 that is the requested section header, collect the lines after it up to the next
 `===` line, and answer with their concatenation trimmed of whitespace, with a
 canned fallback reply when nothing was collected.
 */
module KnowledgeBase {
  import opened Wrappers
  import opened Text

  /** The reply when the knowledge-base file does not exist. */
  const MissingFileMessage: string :=
    "Grace: My knowledge base file is missing. Please make sure 'knowledgebase.txt' is in the same folder."

  /** The reply when reading the file raises; `error` is the exception's text. */
  function ReadErrorMessage(error: string): string {
    "Grace: Error reading my internal documentation: " + error
  }

  /** The pool that a reply is picked from when no section text was found. */
  const FallbackResponses: seq<string> := [
    "Grace: I’m unable to locate my internal IT support instructions at the moment. Please check back later.",
    "Grace: I can’t seem to find the right section in my knowledge base. Let’s double-check the topic together.",
    "Grace: I don’t have that information stored yet, but I can help you with Wi-Fi, password resets, or access requests.",
    "Grace: I’m missing the documentation for that issue right now. You might want to contact the IT Helpdesk for further assistance."
  ]

  /**
   What the agent finds when it looks for its knowledge-base file: no file, a
   file whose reading fails with an error message, or the file's lines as
   `readlines()` returns them (each with its line ending).
   */
  datatype KbFile = Missing | Unreadable(error: string) | Lines(lines: seq<string>)

  /** A line that, once stripped, is exactly the target header. */
  predicate IsHeaderLine(line: string, header: string) {
    Strip(line) == header
  }

  /** A line that ends the section: a stripped `===` line other than the target header. */
  predicate IsStopLine(line: string, header: string) {
    StartsWith(Strip(line), "===") && Strip(line) != header
  }

  /** Index of the first header line, if any. */
  function FirstHeader(lines: seq<string>, header: string): (k: Option<nat>)
    ensures k.Some? ==> k.value < |lines| && IsHeaderLine(lines[k.value], header)
    ensures k.Some? ==> forall j | 0 <= j < k.value :: !IsHeaderLine(lines[j], header)
    ensures k.None? ==> forall j | 0 <= j < |lines| :: !IsHeaderLine(lines[j], header)
  {
    if lines == [] then None
    else if IsHeaderLine(lines[0], header) then Some(0)
    else match FirstHeader(lines[1..], header)
      case None => None
      case Some(k) => Some(k + 1)
  }

  /** Index of the first stop line of `ls`, or |ls| when there is none. */
  function StopIndex(ls: seq<string>, header: string): (j: nat)
    ensures j <= |ls|
    ensures forall m | 0 <= m < j :: !IsStopLine(ls[m], header)
    ensures j < |ls| ==> IsStopLine(ls[j], header)
  {
    if ls == [] || IsStopLine(ls[0], header) then 0
    else
      var j := StopIndex(ls[1..], header);
      assert forall m | 1 <= m < j + 1 :: ls[m] == ls[1..][m - 1];
      j + 1
  }

  /** `ls` without the lines that repeat the target header, order kept. */
  function DropRepeats(ls: seq<string>, header: string): (r: seq<string>)
    ensures |r| <= |ls|
  {
    if ls == [] then []
    else
      var last := ls[|ls| - 1];
      var front := DropRepeats(ls[..|ls| - 1], header);
      if IsHeaderLine(last, header) then front else front + [last]
  }

  /** Repeats are dropped piecewise: DropRepeats distributes over +. */
  lemma {:induction false} DropRepeatsAppend(a: seq<string>, b: seq<string>, header: string)
    ensures DropRepeats(a + b, header) == DropRepeats(a, header) + DropRepeats(b, header)
    decreases |b|
  {
    if b == [] {
      assert a + b == a;
    } else {
      var b' := b[..|b| - 1];
      assert (a + b)[..|a + b| - 1] == a + b';
      DropRepeatsAppend(a, b', header);
    }
  }

  /** The lines a section contributes, given the lines after its header. */
  function Body(ls: seq<string>, header: string): seq<string> {
    DropRepeats(ls[..StopIndex(ls, header)], header)
  }

  /**
   The lines `load_kb_section` collects: those after the first header line, up
   to (not including) the next stop line, with repeats of the header skipped.
   */
  function Section(lines: seq<string>, header: string): seq<string> {
    match FirstHeader(lines, header)
    case None => []
    case Some(k) => Body(lines[k + 1..], header)
  }

  /** `"".join(ls)` */
  function Concat(ls: seq<string>): string {
    if ls == [] then "" else ls[0] + Concat(ls[1..])
  }

  /**
   What `load_kb_section(header)` may answer for a given state of the
   knowledge-base file. With the file present the answer is the stripped
   concatenation of the section's lines or, when there were none, any member of
   the fallback pool.
   */
  predicate IsSectionReply(header: string, kb: KbFile, reply: string) {
    match kb
    case Missing => reply == MissingFileMessage
    case Unreadable(error) => reply == ReadErrorMessage(error)
    case Lines(lines) =>
      var section := Section(lines, header);
      if section == [] then reply in FallbackResponses
      else reply == Strip(Concat(section))
  }

  /** FirstHeader finds the earliest header line. */
  lemma FirstHeaderAt(lines: seq<string>, header: string, k: nat)
    requires k < |lines| && IsHeaderLine(lines[k], header)
    requires forall j | 0 <= j < k :: !IsHeaderLine(lines[j], header)
    ensures FirstHeader(lines, header) == Some(k)
  {
  }

  /** None of the first `i` lines is a header line. */
  ghost predicate NoHeaderBefore(lines: seq<string>, header: string, i: nat)
    requires i <= |lines|
  {
    i == 0 || (!IsHeaderLine(lines[i - 1], header) && NoHeaderBefore(lines, header, i - 1))
  }

  /** None of the lines from `lo` up to (not including) `i` is a stop line. */
  ghost predicate NoStopBetween(lines: seq<string>, header: string, lo: nat, i: nat)
    requires lo <= i <= |lines|
    decreases i - lo
  {
    i == lo || (!IsStopLine(lines[i - 1], header) && NoStopBetween(lines, header, lo, i - 1))
  }

  /** NoHeaderBefore, stated line by line. */
  lemma {:induction false} NoHeaderBeforeAll(lines: seq<string>, header: string, i: nat)
    requires i <= |lines| && NoHeaderBefore(lines, header, i)
    ensures forall j | 0 <= j < i :: !IsHeaderLine(lines[j], header)
  {
    if i > 0 {
      NoHeaderBeforeAll(lines, header, i - 1);
    }
  }

  /** NoStopBetween, stated line by line. */
  lemma {:induction false} NoStopBetweenAll(lines: seq<string>, header: string, lo: nat, i: nat)
    requires lo <= i <= |lines| && NoStopBetween(lines, header, lo, i)
    ensures forall j | lo <= j < i :: !IsStopLine(lines[j], header)
    decreases i - lo
  {
    if i > lo {
      NoStopBetweenAll(lines, header, lo, i - 1);
    }
  }

  /**
   What the scan of `load_kb_section` knows after the first `i` lines: outside
   the section nothing is collected and no header has been seen; inside it,
   the section opened at the first header `start`, no stop line has followed,
   and `content` is what the section holds so far.
   */
  ghost predicate Scanned(lines: seq<string>, header: string, i: nat, inSection: bool,
                          start: nat, content: seq<string>)
  {
    && i <= |lines|
    && (!inSection ==> content == [] && NoHeaderBefore(lines, header, i))
    && (inSection ==>
          && start < i
          && FirstHeader(lines, header) == Some(start)
          && NoStopBetween(lines, header, start + 1, i)
          && content == DropRepeats(lines[start + 1..i], header))
  }

  /** Extending the scanned range by one line extends DropRepeats by at most that line. */
  lemma DropRepeatsStep(lines: seq<string>, lo: nat, i: nat, header: string)
    requires lo <= i < |lines|
    ensures DropRepeats(lines[lo..i + 1], header) ==
      DropRepeats(lines[lo..i], header) + (if IsHeaderLine(lines[i], header) then [] else [lines[i]])
  {
    assert lines[lo..i + 1][..i - lo] == lines[lo..i];
  }

  /** The first header line opens the section. */
  lemma ScanOpen(lines: seq<string>, header: string, i: nat, start: nat, content: seq<string>)
    requires Scanned(lines, header, i, false, start, content)
    requires i < |lines| && IsHeaderLine(lines[i], header)
    ensures Scanned(lines, header, i + 1, true, i, content)
  {
    NoHeaderBeforeAll(lines, header, i);
    FirstHeaderAt(lines, header, i);
    assert lines[i + 1..i + 1] == [];
  }

  /** Before the section, any other line is passed over. */
  lemma ScanOutside(lines: seq<string>, header: string, i: nat, start: nat, content: seq<string>)
    requires Scanned(lines, header, i, false, start, content)
    requires i < |lines| && !IsHeaderLine(lines[i], header)
    ensures Scanned(lines, header, i + 1, false, start, content)
  {
  }

  /** Inside the section, a repeat of the header is skipped. */
  lemma ScanRepeat(lines: seq<string>, header: string, i: nat, start: nat, content: seq<string>)
    requires Scanned(lines, header, i, true, start, content)
    requires i < |lines| && IsHeaderLine(lines[i], header)
    ensures Scanned(lines, header, i + 1, true, start, content)
  {
    DropRepeatsStep(lines, start + 1, i, header);
  }

  /** Inside the section, a line that neither repeats the header nor stops the scan is collected. */
  lemma ScanInside(lines: seq<string>, header: string, i: nat, start: nat, content: seq<string>)
    requires Scanned(lines, header, i, true, start, content)
    requires i < |lines| && !IsHeaderLine(lines[i], header) && !IsStopLine(lines[i], header)
    ensures Scanned(lines, header, i + 1, true, start, content + [lines[i]])
  {
    DropRepeatsStep(lines, start + 1, i, header);
  }

  /** StopIndex is the position of the first stop line. */
  lemma StopIndexAt(ls: seq<string>, j: nat, header: string)
    requires j < |ls| && IsStopLine(ls[j], header)
    requires forall m | 0 <= m < j :: !IsStopLine(ls[m], header)
    ensures StopIndex(ls, header) == j
  {
  }

  /** A stop line inside the section closes it: what was collected is the section. */
  lemma ScanStop(lines: seq<string>, header: string, i: nat, start: nat, content: seq<string>)
    requires Scanned(lines, header, i, true, start, content)
    requires i < |lines| && IsStopLine(lines[i], header)
    ensures Section(lines, header) == content
  {
    var ls, n := lines[start + 1..], i - start - 1;
    NoStopBetweenAll(lines, header, start + 1, i);
    assert forall m | 0 <= m < n :: ls[m] == lines[start + 1 + m];
    StopIndexAt(ls, n, header);
    assert ls[..n] == lines[start + 1..i];
    assert Section(lines, header) == DropRepeats(ls[..n], header);
  }

  /** A scan that reaches the end of the file has collected the section. */
  lemma ScanEnd(lines: seq<string>, header: string, inSection: bool, start: nat, content: seq<string>)
    requires Scanned(lines, header, |lines|, inSection, start, content)
    ensures Section(lines, header) == content
  {
    if !inSection {
      NoHeaderBeforeAll(lines, header, |lines|);
    } else {
      var ls := lines[start + 1..];
      NoStopBetweenAll(lines, header, start + 1, |lines|);
      assert StopIndex(ls, header) == |ls| by {
        assert forall m | 0 <= m < |ls| :: ls[m] == lines[start + 1 + m];
      }
      assert ls[..|ls|] == lines[start + 1..|lines|];
    }
  }

  /**
   The scan loop of `load_kb_section` over the file's lines: it collects the
   lines of the section of `header`, exactly as Section describes them.
   */
  method ScanSection(lines: seq<string>, header: string) returns (content: seq<string>)
    ensures content == Section(lines, header)
  {
    content := [];
    var inSection := false;
    ghost var start: nat := 0;
    var i := 0;
    while i < |lines|
      invariant Scanned(lines, header, i, inSection, start, content)
    {
      var line := lines[i];
      if IsHeaderLine(line, header) {
        if !inSection {
          ScanOpen(lines, header, i, start, content);
          start := i;
          inSection := true;
        } else {
          ScanRepeat(lines, header, i, start, content);
        }
      } else if !inSection {
        ScanOutside(lines, header, i, start, content);
      } else if IsStopLine(line, header) {
        ScanStop(lines, header, i, start, content);
        return;
      } else {
        ScanInside(lines, header, i, start, content);
        content := content + [line];
      }
      i := i + 1;
    }
    ScanEnd(lines, header, inSection, start, content);
  }

  /** `load_kb_section(header)`; the random choice of a fallback is any member of the pool. */
  method LoadSection(header: string, kb: KbFile) returns (reply: string)
    ensures IsSectionReply(header, kb, reply)
  {
    match kb
    case Missing =>
      reply := MissingFileMessage;
    case Unreadable(error) =>
      reply := ReadErrorMessage(error);
    case Lines(lines) =>
      var content := ScanSection(lines, header);
      if content == [] {
        assert FallbackResponses[0] in FallbackResponses;
        reply :| reply in FallbackResponses;
      } else {
        reply := Strip(Concat(content));
      }
  }
}

/** Properties of the section lookup, stated over the knowledge-base lines. */
module KnowledgeBaseProperties {
  import opened Wrappers
  import opened Text
  import opened KnowledgeBase

  predicate NoHeaderLines(ls: seq<string>, header: string) {
    forall m | 0 <= m < |ls| :: !IsHeaderLine(ls[m], header)
  }

  predicate NoStopLines(ls: seq<string>, header: string) {
    forall m | 0 <= m < |ls| :: !IsStopLine(ls[m], header)
  }

  /**
   Whatever precedes the first header line has no influence: the section is
   read from the lines after that header alone.
   */
  lemma SectionIgnoresPrefix(pre: seq<string>, h: string, post: seq<string>, header: string)
    requires NoHeaderLines(pre, header) && IsHeaderLine(h, header)
    ensures Section(pre + [h] + post, header) == Body(post, header)
  {
    var lines := pre + [h] + post;
    assert lines[|pre|] == h;
    assert forall j | 0 <= j < |pre| :: lines[j] == pre[j];
    FirstHeaderAt(lines, header, |pre|);
    assert lines[|pre| + 1..] == post;
  }

  /** The first stop line ends the section; it and all that follows are excluded. */
  lemma BodyStopsAt(c: seq<string>, g: string, rest: seq<string>, header: string)
    requires NoStopLines(c, header) && IsStopLine(g, header)
    ensures Body(c + [g] + rest, header) == DropRepeats(c, header)
  {
    var ls := c + [g] + rest;
    assert ls[|c|] == g;
    assert forall m | 0 <= m < |c| :: ls[m] == c[m];
    assert StopIndex(ls, header) == |c| by {
      StopIndexAt(ls, |c|, header);
    }
    assert ls[..|c|] == c;
  }

  /** Without a stop line the section runs to the end of the file. */
  lemma BodyToEnd(c: seq<string>, header: string)
    requires NoStopLines(c, header)
    ensures Body(c, header) == DropRepeats(c, header)
  {
    assert c[..|c|] == c;
  }

  /** A repeat of the target header inside its section is skipped, not a stop. */
  lemma {:induction false} BodySkipsRepeat(h: string, rest: seq<string>, header: string)
    requires IsHeaderLine(h, header)
    ensures Body([h] + rest, header) == Body(rest, header)
  {
    var ls := [h] + rest;
    var n := StopIndex(rest, header);
    assert !IsStopLine(h, header);
    assert ls[1..] == rest;
    assert StopIndex(ls, header) == n + 1;
    assert ls[..n + 1] == [h] + rest[..n];
    DropRepeatsAppend([h], rest[..n], header);
    assert DropRepeats([h], header) == [] by {
      assert [h][..0] == [];
    }
  }

  /** DropRepeats keeps only lines of its input, and none that repeats the header. */
  lemma {:induction false} DropRepeatsKeeps(ls: seq<string>, header: string)
    ensures forall x | x in DropRepeats(ls, header) :: x in ls && !IsHeaderLine(x, header)
  {
    if ls != [] {
      var front := ls[..|ls| - 1];
      DropRepeatsKeeps(front, header);
      assert ls == front + [ls[|ls| - 1]];
    }
  }

  /**
   Every collected line is a line of the file after the first header line, and
   none is a header or stop line; nothing is collected without a header.
   */
  lemma SectionLines(lines: seq<string>, header: string)
    ensures Section(lines, header) != [] ==> FirstHeader(lines, header).Some?
    ensures Section(lines, header) != [] ==> forall x | x in Section(lines, header) ::
      && x in lines[FirstHeader(lines, header).value + 1..]
      && !IsHeaderLine(x, header) && !IsStopLine(x, header)
  {
    if FirstHeader(lines, header).Some? {
      var ls := lines[FirstHeader(lines, header).value + 1..];
      var n := StopIndex(ls, header);
      DropRepeatsKeeps(ls[..n], header);
      assert forall x | x in ls[..n] :: x in ls && !IsStopLine(x, header);
    }
  }

  /** A section without repeated headers comes back exactly as written. */
  lemma {:induction false} DropRepeatsNone(c: seq<string>, header: string)
    requires NoHeaderLines(c, header)
    ensures DropRepeats(c, header) == c
    decreases |c|
  {
    if c != [] {
      var front := c[..|c| - 1];
      DropRepeatsNone(front, header);
      assert c == front + [c[|c| - 1]];
    }
  }

  /**
   Round trip: a file holding header `h`, then lines `c`, then another section
   header `g`, yields exactly `c`, whatever comes before `h` or after `g`.
   */
  lemma SectionRoundTrip(pre: seq<string>, h: string, c: seq<string>, g: string,
                         rest: seq<string>, header: string)
    requires NoHeaderLines(pre, header) && IsHeaderLine(h, header)
    requires NoHeaderLines(c, header) && NoStopLines(c, header)
    requires IsStopLine(g, header)
    ensures Section(pre + [h] + c + [g] + rest, header) == c
  {
    assert pre + [h] + c + [g] + rest == pre + [h] + (c + [g] + rest);
    SectionIgnoresPrefix(pre, h, c + [g] + rest, header);
    BodyStopsAt(c, g, rest, header);
    DropRepeatsNone(c, header);
  }

  /**
   The round trip at the level of the reply: for such a file with some section
   lines `c`, the agent answers with their concatenation, stripped.
   */
  lemma ReplyRoundTrip(pre: seq<string>, h: string, c: seq<string>, g: string,
                       rest: seq<string>, header: string, reply: string)
    requires NoHeaderLines(pre, header) && IsHeaderLine(h, header)
    requires c != [] && NoHeaderLines(c, header) && NoStopLines(c, header)
    requires IsStopLine(g, header)
    requires IsSectionReply(header, Lines(pre + [h] + c + [g] + rest), reply)
    ensures reply == Strip(Concat(c))
  {
    SectionRoundTrip(pre, h, c, g, rest, header);
  }

  /** The same round trip when the section is the last one in the file. */
  lemma SectionRoundTripAtEnd(pre: seq<string>, h: string, c: seq<string>, header: string)
    requires NoHeaderLines(pre, header) && IsHeaderLine(h, header)
    requires NoHeaderLines(c, header) && NoStopLines(c, header)
    ensures Section(pre + [h] + c, header) == c
  {
    SectionIgnoresPrefix(pre, h, c, header);
    BodyToEnd(c, header);
    DropRepeatsNone(c, header);
  }

  /**
   Nothing is collected, so the reply comes from the fallback pool, when the
   header is absent, when it is the last line, or when a stop line follows it
   at once.
   */
  lemma SectionEmptyCases(lines: seq<string>, header: string)
    ensures FirstHeader(lines, header).None? ==> Section(lines, header) == []
    ensures FirstHeader(lines, header).Some? && FirstHeader(lines, header).value == |lines| - 1
            ==> Section(lines, header) == []
    ensures FirstHeader(lines, header).Some? && FirstHeader(lines, header).value + 1 < |lines|
            && IsStopLine(lines[FirstHeader(lines, header).value + 1], header)
            ==> Section(lines, header) == []
  {
    match FirstHeader(lines, header)
    case None =>
    case Some(k) =>
      var ls := lines[k + 1..];
      if ls != [] && IsStopLine(ls[0], header) {
        assert StopIndex(ls, header) == 0;
        assert ls[..0] == [];
      }
      if ls == [] {
        assert ls[..StopIndex(ls, header)] == [];
      }
  }

  /**
   With the file present and section text collected, the reply carries no
   whitespace at either end.
   */
  lemma ReplyTrimmed(header: string, lines: seq<string>, reply: string)
    requires IsSectionReply(header, Lines(lines), reply)
    requires Section(lines, header) != []
    ensures Trimmed(reply)
    ensures reply == Strip(reply)
  {
    var c := Concat(Section(lines, header));
    TextReply(header, lines, reply);
    StripShape(c);
    StripIdempotent(c);
  }

  /** With section text collected, the reply is that text joined and stripped. */
  lemma TextReply(header: string, lines: seq<string>, reply: string)
    requires IsSectionReply(header, Lines(lines), reply)
    requires Section(lines, header) != []
    ensures reply == Strip(Concat(Section(lines, header)))
  {
  }

  /** Concatenating whitespace-only lines gives whitespace only. */
  lemma {:induction false} ConcatAllSpace(ls: seq<string>)
    requires forall m | 0 <= m < |ls| :: AllSpace(ls[m])
    ensures AllSpace(Concat(ls))
  {
    if ls != [] {
      ConcatAllSpace(ls[1..]);
      var c := Concat(ls);
      assert c == ls[0] + Concat(ls[1..]);
      forall k | 0 <= k < |c| ensures IsSpace(c[k]) {
        if k < |ls[0]| {
          assert c[k] == ls[0][k];
        } else {
          assert c[k] == Concat(ls[1..])[k - |ls[0]|];
        }
      }
    }
  }

  /**
   A section made only of blank lines is not "nothing collected": the reply is
   the empty string, not a fallback.
   */
  lemma BlankSectionGivesEmptyReply(pre: seq<string>, h: string, blanks: seq<string>, g: string,
                                    rest: seq<string>, header: string, reply: string)
    requires header != [] && NoHeaderLines(pre, header) && IsHeaderLine(h, header)
    requires IsStopLine(g, header)
    requires blanks != [] && forall m | 0 <= m < |blanks| :: AllSpace(blanks[m])
    requires IsSectionReply(header, Lines(pre + [h] + blanks + [g] + rest), reply)
    ensures reply == []
  {
    forall m | 0 <= m < |blanks|
      ensures Strip(blanks[m]) == []
    {
      var b := blanks[m];
      assert b[..0] == [] && b[0..] == b;
      StripCharacterized(b, 0, []);
    }
    assert Section(pre + [h] + blanks + [g] + rest, header) == blanks by {
      SectionRoundTrip(pre, h, blanks, g, rest, header);
    }
    ConcatAllSpace(blanks);
    var c := Concat(blanks);
    assert c[..0] == [] && c[0..] == c;
    StripCharacterized(c, 0, []);
  }
}
