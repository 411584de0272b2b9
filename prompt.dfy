/**
 * The prompt composer and the outgoing message list of `run_chatgpt`.
 */
module Prompt {
  import opened Wrappers
  import opened Errors
  import opened History

  /** One `{"role": ..., "content": ...}` entry of the request. */
  datatype Message = Message(role: string, content: string)

  const SystemRole: string := "system"
  const UserRole: string := "user"
  const AssistantRole: string := "assistant"

  /** What joins the instruction to the clipboard text. */
  const Separator: string := ": "

  /**
   * The new prompt from the clipboard text and the instruction (`clipboard_action`):
   * an error when both are empty, otherwise the non-empty one, or both joined with
   * the instruction first.
   */
  function Compose(clipboard: string, action: string): (r: Result<string, Error>)
    ensures r.Failure? <==> clipboard == [] && action == []
    ensures r.Failure? ==> r.error == EmptyPrompt
    ensures r.Success? ==> action <= r.value
    ensures r.Success? ==> |clipboard| <= |r.value| && r.value[|r.value| - |clipboard|..] == clipboard
    ensures r.Success? ==>
      |r.value| == |action| + |clipboard| + (if action != [] && clipboard != [] then |Separator| else 0)
    ensures r.Success? && action != [] && clipboard != [] ==>
      r.value[|action|..|action| + |Separator|] == Separator
  {
    if clipboard == [] && action == [] then Failure(EmptyPrompt)
    else if clipboard == [] then Success(action)
    else if action == [] then Success(clipboard)
    else Success(action + Separator + clipboard)
  }

  /** Python's `zip`: pairs up the two lists, as long as the shorter one. */
  function Zip(roles: seq<string>, contents: seq<string>): (ms: seq<Message>)
    ensures |ms| == if |roles| < |contents| then |roles| else |contents|
    ensures forall i :: 0 <= i < |ms| ==> ms[i] == Message(roles[i], contents[i])
  {
    if roles == [] || contents == [] then []
    else [Message(roles[0], contents[0])] + Zip(roles[1..], contents[1..])
  }

  /**
   * The request's messages: the system role first, then the history turns in
   * query order, then the new prompt as the user's message.
   */
  function BuildMessages(systemRole: string, history: Transcript, prompt: string): (ms: seq<Message>)
    ensures |ms| == 2 + if |history.roles| < |history.contents| then |history.roles| else |history.contents|
    ensures ms[0] == Message(SystemRole, systemRole)
    ensures ms[|ms| - 1] == Message(UserRole, prompt)
    ensures forall i :: 1 <= i < |ms| - 1 ==> ms[i] == Message(history.roles[i - 1], history.contents[i - 1])
  {
    [Message(SystemRole, systemRole)] + Zip(history.roles, history.contents) + [Message(UserRole, prompt)]
  }
}
