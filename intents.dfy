/**
 One turn of the Grace chat loop: normalise the user's text, recognise the exit
 command, pick the intent of the first keyword rule that fires, and answer with
 the matching knowledge-base section.
 */
module Intents {
  import opened Wrappers
  import opened Text
  import opened KnowledgeBase

  /** The keys of `KB_SECTIONS`, one per intent. */
  datatype Intent = Password | Permissions | AV | HwSw | Wifi

  /** The label inside each `KB_SECTIONS` header. */
  function Label(i: Intent): string {
    match i
    case Password => "PASSWORD RESET INSTRUCTIONS"
    case Permissions => "PERMISSIONS / ACCESS REQUEST INSTRUCTIONS"
    case AV => "WEBCAM & MICROPHONE TROUBLESHOOTING"
    case HwSw => "HARDWARE & SOFTWARE REQUEST INSTRUCTIONS"
    case Wifi => "WIFI CONNECTION TROUBLESHOOTING"
  }

  /** `KB_SECTIONS`: the knowledge-base header line for each intent, `=== LABEL ===`. */
  function Header(i: Intent): string {
    "=== " + Label(i) + " ==="
  }

  /** `input(...).lower().strip()` */
  function Normalize(raw: string): string {
    Strip(Lower(raw))
  }

  /** `user_input in ["exit", "quit"]`: an exact match, not a substring test. */
  predicate IsExitCommand(input: string) {
    input in ["exit", "quit"]
  }

  /**
   The if/elif chain of the chat loop over the normalised input: the first
   branch whose keyword occurs picks the intent, None when none occurs.
   */
  function Classify(input: string): Option<Intent> {
    if Contains(input, "password") then Some(Password)
    else if Contains(input, "permission") || Contains(input, "access") then Some(Permissions)
    else if Contains(input, "camera") || Contains(input, "microphone") then Some(AV)
    else if Contains(input, "hardware") || Contains(input, "software") then Some(HwSw)
    else if Contains(input, "wifi") || Contains(input, "wi-fi") then Some(Wifi)
    else None
  }

  /** What the loop does with one line of user input. */
  datatype Action = Quit | Clarify | Consult(intent: Intent)

  function Decide(raw: string): Action {
    var input := Normalize(raw);
    if IsExitCommand(input) then Quit
    else match Classify(input)
      case None => Clarify
      case Some(i) => Consult(i)
  }

  const GoodbyeMessage: string :=
    "Grace: Goodbye! Remember to reboot if something isn’t working — it fixes more than you’d think."

  const ClarifyMessage: string :=
    "Grace: I’m not sure which issue this relates to. Could you clarify if it’s about Wi-Fi, passwords, permissions, or something else?"

  /**
   One pass of the chat loop on the line `raw`, with the knowledge-base file in
   state `kb`. `quit` says whether the loop ends; `reply` is what is printed.
   */
  method Turn(raw: string, kb: KbFile) returns (quit: bool, reply: string)
    ensures quit <==> Decide(raw) == Quit
    ensures Decide(raw) == Quit ==> reply == GoodbyeMessage
    ensures Decide(raw) == Clarify ==> reply == ClarifyMessage
    ensures Decide(raw).Consult? ==> IsSectionReply(Header(Decide(raw).intent), kb, reply)
  {
    var input := Normalize(raw);
    if IsExitCommand(input) {
      return true, GoodbyeMessage;
    }
    var intent := Classify(input);
    if intent.None? {
      return false, ClarifyMessage;
    }
    reply := LoadSection(Header(intent.value), kb);
    quit := false;
  }
}
