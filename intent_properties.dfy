/** What the chat loop's intent selection promises, stated over all inputs. */
module IntentProperties {
  import opened Wrappers
  import opened Text
  import opened KnowledgeBase
  import opened KnowledgeBaseProperties
  import opened Intents

  /** The rules in the order the if/elif chain tries them. */
  const Priority: seq<Intent> := [Password, Permissions, AV, HwSw, Wifi]

  /** Position of an intent's rule in the chain. */
  function Rank(i: Intent): (r: nat)
    ensures r < |Priority| && Priority[r] == i
  {
    match i
    case Password => 0
    case Permissions => 1
    case AV => 2
    case HwSw => 3
    case Wifi => 4
  }

  /** The keywords of each rule, as a table. */
  function Triggers(i: Intent): seq<string> {
    match i
    case Password => ["password"]
    case Permissions => ["permission", "access"]
    case AV => ["camera", "microphone"]
    case HwSw => ["hardware", "software"]
    case Wifi => ["wifi", "wi-fi"]
  }

  /** The rule for `i` fires when one of its keywords occurs in the input. */
  predicate Fires(i: Intent, input: string) {
    exists k | 0 <= k < |Triggers(i)| :: Contains(input, Triggers(i)[k])
  }

  /** The table of keywords says the same as the conditions of the if/elif chain. */
  lemma FiresIff(i: Intent, input: string)
    ensures Fires(i, input) <==> match i
      case Password => Contains(input, "password")
      case Permissions => Contains(input, "permission") || Contains(input, "access")
      case AV => Contains(input, "camera") || Contains(input, "microphone")
      case HwSw => Contains(input, "hardware") || Contains(input, "software")
      case Wifi => Contains(input, "wifi") || Contains(input, "wi-fi")
  {
    var ts := Triggers(i);
    if i == Password {
      assert ts[0] == "password";
    } else {
      assert |ts| == 2;
      assert ts[0] == Triggers(i)[0] && ts[1] == Triggers(i)[1];
    }
  }

  /** No rule before position `n` of the priority order fires. */
  predicate NoneBefore(n: nat, input: string) {
    forall k | 0 <= k < n && k < |Priority| :: !Fires(Priority[k], input)
  }

  /**
   Classification picks the first rule in priority order that fires: the
   intent is `i` exactly when the rule for `i` fires and no earlier rule does.
   */
  lemma ClassifyFirstRule(input: string, i: Intent)
    ensures Classify(input) == Some(i) <==> Fires(i, input) && NoneBefore(Rank(i), input)
  {
    FiresIff(Password, input);
    FiresIff(Permissions, input);
    FiresIff(AV, input);
    FiresIff(HwSw, input);
    FiresIff(Wifi, input);
    assert Priority[0] == Password && Priority[1] == Permissions && Priority[2] == AV;
    assert Priority[3] == HwSw && Priority[4] == Wifi;
  }

  /** No intent is chosen exactly when no rule fires. */
  lemma ClassifyNone(input: string)
    ensures Classify(input) == None <==> forall i: Intent :: !Fires(i, input)
  {
    FiresIff(Password, input);
    FiresIff(Permissions, input);
    FiresIff(AV, input);
    FiresIff(HwSw, input);
    FiresIff(Wifi, input);
    if Classify(input) == None {
      forall i: Intent ensures !Fires(i, input) {
        FiresIff(i, input);
      }
    }
  }

  /** An occurrence needs room: a string contains nothing longer than itself. */
  lemma ContainsFits(s: string, t: string)
    requires Contains(s, t)
    ensures |t| <= |s|
  {
    ContainsIff(s, t);
  }

  /** No rule fires on "exit" or "quit", so the exit test never hides an intent. */
  lemma ExitWordsFireNoRule(input: string, i: Intent)
    requires IsExitCommand(input)
    ensures !Fires(i, input)
  {
    FiresIff(i, input);
    assert "exit"[0] != "wifi"[0] && "quit"[0] != "wifi"[0];
  }

  /**
   The loop consults the knowledge base for `i` exactly when, on the
   normalised input, the rule for `i` fires and no earlier rule does.
   */
  lemma DecideFirstRule(raw: string, i: Intent)
    ensures Decide(raw) == Consult(i) <==>
      Fires(i, Normalize(raw)) && NoneBefore(Rank(i), Normalize(raw))
  {
    var input := Normalize(raw);
    ClassifyFirstRule(input, i);
    if IsExitCommand(input) {
      ExitWordsFireNoRule(input, i);
    }
  }

  /**
   The loop ends only on the exact words "exit" or "quit" (after lower-casing
   and stripping); text that merely contains them is classified like any other.
   */
  lemma DecideQuitExactly(raw: string)
    ensures Decide(raw) == Quit <==> Normalize(raw) == "exit" || Normalize(raw) == "quit"
    ensures Decide(raw) == Quit ==> forall i: Intent :: !Fires(i, Normalize(raw))
  {
    if Decide(raw) == Quit {
      forall i: Intent ensures !Fires(i, Normalize(raw)) {
        ExitWordsFireNoRule(Normalize(raw), i);
      }
    }
  }

  /** The loop asks for clarification exactly when no rule fires and the input is no exit command. */
  lemma DecideClarify(raw: string)
    ensures Decide(raw) == Clarify <==>
      !IsExitCommand(Normalize(raw)) && forall i: Intent :: !Fires(i, Normalize(raw))
  {
    ClassifyNone(Normalize(raw));
  }

  /** Surrounding whitespace does not change the decision. */
  lemma DecideIgnoresPadding(a: string, raw: string, b: string)
    requires AllSpace(a) && AllSpace(b)
    ensures Decide(a + raw + b) == Decide(raw)
  {
    LowerAppend(a + raw, b);
    LowerAppend(a, raw);
    LowerKeepsSpace(a);
    LowerKeepsSpace(b);
    StripPadded(a, Lower(raw), b);
  }

  /** Letter case does not change the decision. */
  lemma DecideIgnoresCase(s: string, t: string)
    requires |s| == |t|
    requires forall k | 0 <= k < |s| :: LowerChar(s[k]) == LowerChar(t[k])
    ensures Decide(s) == Decide(t)
  {
    assert Lower(s) == Lower(t);
  }

  /** Empty and whitespace-only input asks for clarification. */
  lemma BlankInputClarifies(raw: string)
    requires AllSpace(raw)
    ensures Decide(raw) == Clarify
  {
    LowerKeepsSpace(raw);
    assert raw[..0] == [] && raw[0..] == raw;
    StripCharacterized(raw, 0, []);
  }

  /** "password" anywhere, in any letter case, picks the password section, whatever else is said. */
  lemma PasswordAlwaysWins(raw: string, u: string)
    requires Contains(raw, u) && Lower(u) == "password"
    ensures Decide(raw) == Consult(Password)
  {
    var input := Normalize(raw);
    assert Contains(input, "password") by {
      ContainsLower(raw, u);
      NoSpaceInPassword();
      ContainsSurvivesStrip(Lower(raw), "password");
    }
    assert !IsExitCommand(input) by {
      ContainsFits(input, "password");
    }
  }

  /** The password keyword holds no whitespace, so strip() cannot cut into it. */
  lemma NoSpaceInPassword()
    ensures forall k | 0 <= k < |"password"| :: !IsSpace("password"[k])
  {
  }

  /** Every header starts with "===" and has no whitespace at either end. */
  lemma HeaderShape(i: Intent)
    ensures StartsWith(Header(i), "===")
    ensures !IsSpace(Header(i)[0]) && !IsSpace(Header(i)[|Header(i)| - 1])
  {
    var h := Header(i);
    assert h[..3] == "===";
    assert h[|h| - 1] == '=';
  }

  /** A line read with its line ending strips back to its text when that text has no whitespace at its ends. */
  lemma StripLineEnding(t: string)
    requires t != [] && !IsSpace(t[0]) && !IsSpace(t[|t| - 1])
    ensures Strip(t + "\n") == t
  {
    assert t[0..|t|] == t && t[..0] == [] && t[|t|..] == [];
    StripCharacterized(t, 0, t);
    assert t + "\n" == [] + t + "\n";
    StripPadded([], t, "\n");
  }

  /** A file line holding a header with its line ending is recognised as that header. */
  lemma HeaderLineRecognised(i: Intent)
    ensures IsHeaderLine(Header(i) + "\n", Header(i))
  {
    HeaderShape(i);
    StripLineEnding(Header(i));
  }

  /** Every other intent's header line ends the section of `i`. */
  lemma OtherHeaderStops(i: Intent, j: Intent)
    requires i != j
    ensures IsStopLine(Header(j) + "\n", Header(i))
  {
    HeaderLineRecognised(j);
    HeaderShape(j);
    HeadersDistinct(i, j);
  }

  /** The five headers differ (their labels even differ in length). */
  lemma HeadersDistinct(i: Intent, j: Intent)
    requires i != j
    ensures Header(i) != Header(j)
  {
    assert |Header(i)| == |Label(i)| + 8 && |Header(j)| == |Label(j)| + 8;
    LabelLength(i);
    LabelLength(j);
  }

  /** The length of each label, one number per intent. */
  lemma LabelLength(i: Intent)
    ensures |Label(i)| == match i
      case Password => 27
      case Permissions => 41
      case AV => 35
      case HwSw => 40
      case Wifi => 31
  {
  }

  /**
   A section of one line of text between its own header and another intent's
   header is answered with that text, without its line ending, whatever the
   file holds before or after.
   */
  lemma OneLineSection(i: Intent, j: Intent, pre: seq<string>, text: string,
                       rest: seq<string>, reply: string)
    requires i != j && NoHeaderLines(pre, Header(i))
    requires text != [] && text[0] != '=' && !IsSpace(text[0]) && !IsSpace(text[|text| - 1])
    requires IsSectionReply(Header(i),
               Lines(pre + [Header(i) + "\n"] + [text + "\n"] + [Header(j) + "\n"] + rest), reply)
    ensures reply == text
  {
    var line, h, g := text + "\n", Header(i) + "\n", Header(j) + "\n";
    var lines := pre + [h] + [line] + [g] + rest;
    assert Section(lines, Header(i)) == [line] by {
      HeaderLineRecognised(i);
      OtherHeaderStops(i, j);
      PlainLine(text, i);
      SectionRoundTrip(pre, h, [line], g, rest, Header(i));
    }
    assert Strip(Concat([line])) == text by {
      assert Concat([line]) == line;
      StripLineEnding(text);
    }
  }

  /** A line of text that does not start with '=' neither opens nor closes a section. */
  lemma PlainLine(text: string, i: Intent)
    requires text != [] && text[0] != '=' && !IsSpace(text[0]) && !IsSpace(text[|text| - 1])
    ensures !IsHeaderLine(text + "\n", Header(i)) && !IsStopLine(text + "\n", Header(i))
  {
    StripLineEnding(text);
    HeaderShape(i);
    assert text[0] != Header(i)[0];
    assert !StartsWith(text, "===") by {
      assert |text| >= 3 ==> text[..3][0] == text[0];
    }
  }
}
