# Grace IT-support agent — a Dafny model

Grace is a console help-desk agent (`grace_agent.py`). It runs one loop, and each turn does the following:

1. It reads a line from the user, lower-cases it and strips it.
2. It ends the chat when the result is exactly `exit` or `quit`.
3. Otherwise it picks an intent by an if/elif chain of keyword tests. The intents are password, permissions, webcam/microphone, hardware/software and Wi-Fi.
4. With an intent, it calls `load_kb_section` with that intent's `=== LABEL ===` header. It prints what comes back. With no intent, it prints a clarification request instead.

`load_kb_section` reads `knowledgebase.txt` line by line:

- A missing file gives one fixed message, and a read error gives another.
- Otherwise the function scans the lines. It starts collecting after the line whose stripped text is the header. It stops at the next stripped line that starts with `===`.
- It answers with the collected lines joined and stripped.
- When it collected nothing, it answers with a random member of `FALLBACK_RESPONSES`.

The model has five files:

- `wrappers.dfy`: the `Option` type.
- `text.dfy` (module `Text`): Python's `str.strip()`, `str.lower()`, `str.startswith` and `t in s`, with their laws.
- `knowledge_base.dfy`:
  - Module `KnowledgeBase` holds the messages and the fallback pool. It also holds the functional specification of the scan (`FirstHeader`, `StopIndex`, `DropRepeats`, `Section`, `IsSectionReply`). `ScanSection` is the imperative scan loop, proved against that specification, and `LoadSection` wraps it with the file checks and the fallback.
  - Module `KnowledgeBaseProperties` holds the round-trip and edge-case lemmas about the lookup.
- `intents.dfy` (module `Intents`):
  - the `KB_SECTIONS` headers, the normalisation, the exit test and the intent chain (`Classify`);
  - the decision for one line (`Decide`);
  - `Turn`, one pass of the loop, which calls `LoadSection`.
- `intent_properties.dfy` (module `IntentProperties`): the first-match semantics of the chain as a priority table, and the exit, padding, case and blank-input laws. It also shows that the headers in `KB_SECTIONS` are recognised by the scan as written in a file.

Behaviour of `grace_agent.py` worth noting:

- **Exit test.** The loop ends only when the normalised line equals `exit` or `quit`. A line such as "please exit" goes through the intent chain like any other text (`DecideQuitExactly`).
- **Fallback choice.** The fallback reply is picked with `random.choice`. The model allows any member of the pool.
- **Unmatched input.** Input that matches no intent gets the fixed clarification message.
- **Header line.** The header line is not part of the section. A later repeat of the target header inside the section is skipped, and the scan goes on (`BodySkipsRepeat`).
- **Stop lines.** Any stripped line that starts with `===` ends the section, whatever follows the `===`.
- **Blank sections.** The fallback is used only when no line was collected. A section made only of blank lines is answered with the empty string (`BlankSectionGivesEmptyReply`).
- **Read errors.** A read error gives its own message carrying the error text. The model includes this branch.

## Model

| member | source | states |
|---|---|---|
| KnowledgeBase.LoadSection | grace_agent.py:41-71 | The scan loop's reply satisfies IsSectionReply. A missing file gives the missing-file message and a read error gives the error message. Otherwise the reply is the stripped join of the collected section, or a member of the fallback pool when nothing was collected. |
| KnowledgeBase.ScanSection | grace_agent.py:51-65 | Proved equal to the specification function `Section`: the `for` loop with its `in_section` flag collects exactly the section: the lines after the first header line, up to the first stop line, without repeats of the header. |
| KnowledgeBase.FirstHeader | grace_agent.py:54-58 | Finds the first line whose stripped text is the header, and no earlier such line; None exactly when no line is the header. |
| KnowledgeBase.StopIndex | grace_agent.py:60-62 | Finds the first line after the header whose stripped text starts with `===` and is not the header; no earlier such line; or the end of the file. |
| KnowledgeBase.DropRepeatsAppend | grace_agent.py:54-65 | Line-by-line collection: dropping repeats distributes over concatenation. |
| KnowledgeBaseProperties.SectionLines | grace_agent.py:54-65 | About `Section`: the collected lines all come after the first header line. None of them is a header line or a stop line, and nothing is collected without a header. |
| KnowledgeBaseProperties.DropRepeatsKeeps | grace_agent.py:55-65 | Skipping repeats of the header adds no line: every kept line is a line of the input and is not a header line. |
| KnowledgeBaseProperties.SectionIgnoresPrefix | grace_agent.py:54-58 | Lines before the first header have no influence on the section. |
| KnowledgeBaseProperties.BodyStopsAt | grace_agent.py:60-62 | The first stop line ends the section; it and everything after it are excluded. |
| KnowledgeBaseProperties.BodySkipsRepeat | grace_agent.py:56-58 | A repeat of the target header inside the section is skipped and does not stop the scan. |
| KnowledgeBaseProperties.DropRepeatsNone | grace_agent.py:64-65 | Without repeats of the header, every line of the section is collected, in order. |
| KnowledgeBaseProperties.SectionRoundTrip | grace_agent.py:54-65 | About `Section`: for a file laid out as prefix, header h, lines c, another header g, rest, the section is exactly c, whatever the prefix and rest hold. |
| KnowledgeBaseProperties.SectionRoundTripAtEnd | grace_agent.py:54-65 | The same round trip when the section runs to the end of the file. |
| KnowledgeBaseProperties.ReplyRoundTrip | grace_agent.py:54-71 | For such a file with non-empty c, the reply is the join of c, stripped. |
| KnowledgeBaseProperties.SectionEmptyCases | grace_agent.py:67-69 | Nothing is collected, so a fallback is given, when the header is absent, when it is the last line, or when a stop line follows it at once. |
| KnowledgeBaseProperties.ReplyTrimmed | grace_agent.py:71 | A reply built from section text has no whitespace at either end and is unchanged by strip(). |
| KnowledgeBaseProperties.BlankSectionGivesEmptyReply | grace_agent.py:64-71 | A section of whitespace-only lines is answered with the empty string, not with a fallback. |
| Intents.Turn | grace_agent.py:83-107 | One loop pass. It quits exactly on the exit decision, with the goodbye message. Unmatched input gets the clarification message. Otherwise the reply is a reply of `load_kb_section` for the chosen intent's header. |
| IntentProperties.Rank | grace_agent.py:91-100 | Each intent's position in the if/elif chain, as an index into the priority order. |
| IntentProperties.FiresIff | grace_agent.py:91-100 | The keyword table says the same as the conditions of each branch of the chain. |
| IntentProperties.ClassifyFirstRule | grace_agent.py:91-100 | About `Classify`, the if/elif chain: it chooses intent i exactly when a keyword of i occurs and no keyword of an earlier branch does. |
| IntentProperties.ClassifyNone | grace_agent.py:91-103 | About `Classify`: no intent is chosen exactly when no keyword of any branch occurs. |
| IntentProperties.ExitWordsFireNoRule | grace_agent.py:86-100 | No keyword occurs in "exit" or "quit", so the exit test never hides an intent. |
| IntentProperties.DecideFirstRule | grace_agent.py:84-100 | About `Decide`, the choice made for one input line: the loop consults the section of i exactly when, on the lower-cased and stripped input, i's rule is the first that fires. |
| IntentProperties.DecideQuitExactly | grace_agent.py:84-88 | About `Decide`: the loop ends exactly when the normalised input equals "exit" or "quit"; then no intent rule would have fired. |
| IntentProperties.DecideClarify | grace_agent.py:84-103 | About `Decide`: clarification is asked exactly when the input is not an exit command and no rule fires. |
| IntentProperties.DecideIgnoresPadding | grace_agent.py:84 | Whitespace around the input does not change the decision. |
| IntentProperties.DecideIgnoresCase | grace_agent.py:84 | Inputs equal up to letter case get the same decision. |
| IntentProperties.BlankInputClarifies | grace_agent.py:84-103 | Empty or whitespace-only input asks for clarification. |
| IntentProperties.PasswordAlwaysWins | grace_agent.py:91-92 | "password" in any letter case anywhere in the input selects the password section, whatever else the input says. |
| IntentProperties.HeaderShape | grace_agent.py:12-18 | Every `KB_SECTIONS` header starts with `===` and has no whitespace at either end. |
| IntentProperties.HeaderLineRecognised | grace_agent.py:12-18 | A file line holding a header and its line ending is recognised as that header. |
| IntentProperties.HeadersDistinct | grace_agent.py:12-18 | The five headers of `KB_SECTIONS` are pairwise different. |
| IntentProperties.OtherHeaderStops | grace_agent.py:12-18 | Another intent's header line ends the section of an intent. |
| IntentProperties.OneLineSection | grace_agent.py:12-71 | A one-line section between its header and another intent's header is answered with that line, without its line ending. |
| IntentProperties.PlainLine | grace_agent.py:56-62 | A text line not starting with '=' neither opens nor closes a section. |
| IntentProperties.StripLineEnding | grace_agent.py:56 | strip() removes the line ending from a line whose text has no whitespace at its ends. |
| Text.StripShape | grace_agent.py:56 | About `Strip`, the model of `str.strip()`: it returns the slice of its argument that starts after the leading whitespace and has only whitespace after it; that slice is empty or has no whitespace at its ends. |
| Text.StripCharacterized | grace_agent.py:56 | About `Strip`: the properties of StripShape determine strip()'s result uniquely. |
| Text.StripPadded | grace_agent.py:84 | Whitespace added around a string does not change strip()'s result. |
| Text.StripIdempotent | grace_agent.py:71 | strip() applied twice equals strip() applied once. |
| Text.Lower | grace_agent.py:84 | lower() keeps the length and maps every character through the letter mapping. |
| Text.ContainsIff | grace_agent.py:91-100 | About `Contains`: `t in s` holds exactly when t occurs at some position of s. |
| Text.ContainsSurvivesStrip | grace_agent.py:84-91 | A keyword without whitespace that occurs in the input still occurs after strip(). |
| Text.ContainsLower | grace_agent.py:84-91 | An occurrence of u in s becomes an occurrence of lower(u) in lower(s). |

## Left out

- Text.Lower: maps only the ASCII letters A–Z, while Python's `str.lower()` also lower-cases other Unicode letters. The keywords are ASCII, so only non-ASCII input is affected.
- KnowledgeBase.LoadSection: which fallback `random.choice` returns is not modelled. The reply is only known to be some member of the pool.
- File access (`os.path.exists`, `open`, `readlines`) is a parameter. `KbFile` is either a missing file, a read error with its message, or the list of lines, each with its line ending. The path of the file is not modelled.
- `log_message` and the chat log file are not modelled, since they only append text to a log.
- The greeting, `input`/`print` and the outer `while True` loop are left out. `Turn` models one pass, and the quit flag stands for the `break`.
- `it_support_chatbot/grace_agent.py` is not part of this model.
- The stop test's `line.strip() != header` clause can never be false: a header line has already been handled by the branch before it. It is modelled as written.
