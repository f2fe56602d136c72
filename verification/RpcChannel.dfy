/** One call on the client side: how the connect result, the reply and the timeout complete it
    (net/rpc/rpc_channel.cc, net/rpc/rpc_controller.cc). */
module RpcChannels {
  import opened Bytes
  import opened ErrorCodes

  /** What the caller can see of a call: how often its closure ran, and the controller's state. */
  datatype CallState = CallState(
    runs: nat, finished: bool, canceled: bool, failed: bool, errorCode: Int32, errorInfo: string)

  /** What can happen to a call. A reply whose payload does not parse is unreadable whatever else it
      says; otherwise an error code other than zero makes it a failure. */
  datatype Event =
    | ConnectFailed(code: Int32, info: string)
    | Connected
    | Reply(readable: bool, code: Int32, info: string)
    | Timeout(text: string)

  const NEW_CALL: CallState := CallState(0, false, false, false, 0, "")

  /** myCallBack: only a closure that runs marks the call finished. */
  function CalledBack(s: CallState, hasClosure: bool): CallState {
    if s.finished || !hasClosure then s else s.(runs := s.runs + 1, finished := true)
  }

  function WithError(s: CallState, code: Int32, info: string): CallState {
    s.(errorCode := code, errorInfo := info, failed := true)
  }

  function Step(s: CallState, e: Event, hasClosure: bool): CallState {
    match e
    case Connected => s
    case ConnectFailed(code, info) => CalledBack(WithError(s, code, info), hasClosure)
    case Reply(readable, code, info) =>
      if !readable then CalledBack(WithError(s, ERROR_FAILED_DESERIALIZE, "deserialize error"), hasClosure)
      else if code != 0 then CalledBack(WithError(s, code, info), hasClosure)
      else CalledBack(s, hasClosure)
    case Timeout(text) =>
      if s.finished then s
      else CalledBack(WithError(s.(canceled := true, failed := true, finished := true), ERROR_RPC_CALL_TIMEOUT, text),
                      hasClosure)
  }

  function Run(s: CallState, es: seq<Event>, hasClosure: bool): CallState
    decreases |es|
  {
    if es == [] then s else Run(Step(s, es[0], hasClosure), es[1..], hasClosure)
  }

  /** The first event other than a successful connect. */
  function Decider(es: seq<Event>): (i: nat)
    ensures i <= |es|
  {
    if es == [] || !es[0].Connected? then 0 else 1 + Decider(es[1..])
  }

  lemma {:induction false} FinishedStays(s: CallState, es: seq<Event>, hasClosure: bool)
    requires s.finished
    ensures var t := Run(s, es, hasClosure);
      t.finished && t.runs == s.runs && t.canceled == s.canceled
    decreases |es|
  {
    if es != [] {
      FinishedStays(Step(s, es[0], hasClosure), es[1..], hasClosure);
    }
  }

  /** Over every schedule the closure runs at most once, and it runs exactly if the first thing to happen
      (a successful connect apart) is a connect failure or a reply. A timeout that comes first marks the
      call finished before calling back, so that the closure never runs at all. */
  lemma {:induction false} CompletionSafety(es: seq<Event>)
    ensures var t := Run(NEW_CALL, es, true); var i := Decider(es);
      && t.runs <= 1
      && (t.runs == 1 <==> i < |es| && !es[i].Timeout?)
      && (t.canceled <==> i < |es| && es[i].Timeout?)
      && (t.finished <==> i < |es|)
    decreases |es|
  {
    if es != [] {
      if es[0].Connected? {
        CompletionSafety(es[1..]);
      } else {
        FinishedStays(Step(NEW_CALL, es[0], true), es[1..], true);
      }
    }
  }

  /** The error an event other than a timeout carries. */
  function ErrorOf(e: Event): seq<(Int32, string)> {
    match e
    case ConnectFailed(code, info) => [(code, info)]
    case Reply(readable, code, info) =>
      if !readable then [(ERROR_FAILED_DESERIALIZE, "deserialize error")]
      else if code != 0 then [(code, info)] else []
    case _ => []
  }

  /** One event, in so many words: which error is recorded, whether the call is cancelled, and whether the
      closure runs. */
  lemma StepIs(s: CallState, e: Event, hasClosure: bool)
    ensures var t := Step(s, e, hasClosure);
      match e
      case Connected => t == s
      case ConnectFailed(code, info) =>
        && (t.errorCode, t.errorInfo, t.failed, t.canceled) == (code, info, true, s.canceled)
        && t.runs == (if s.finished || !hasClosure then s.runs else s.runs + 1)
        && t.finished == (s.finished || hasClosure)
      case Reply(readable, code, info) =>
        && (!readable ==> (t.errorCode, t.errorInfo, t.failed) == (10000003, "deserialize error", true))
        && (readable && code != 0 ==> (t.errorCode, t.errorInfo, t.failed) == (code, info, true))
        && (readable && code == 0 ==> (t.errorCode, t.errorInfo, t.failed) == (s.errorCode, s.errorInfo, s.failed))
        && t.canceled == s.canceled && t.finished == (s.finished || hasClosure)
        && t.runs == if s.finished || !hasClosure then s.runs else s.runs + 1
      case Timeout(text) =>
        if s.finished then t == s
        else t == s.(canceled := true, finished := true, failed := true, errorCode := 10000007, errorInfo := text)
  {
  }

  /** The errors of a schedule in order. A timeout is one only if nothing has finished the call: without a
      closure, only an earlier timeout can have. */
  function Errors(es: seq<Event>, decided: bool, hasClosure: bool): seq<(Int32, string)>
    decreases |es|
  {
    if es == [] then []
    else
      match es[0]
      case Connected => Errors(es[1..], decided, hasClosure)
      case Timeout(text) =>
        (if decided then [] else [(ERROR_RPC_CALL_TIMEOUT, text)]) + Errors(es[1..], true, hasClosure)
      case _ => ErrorOf(es[0]) + Errors(es[1..], decided || hasClosure, hasClosure)
  }

  /** The last error of the whole schedule is the one reported, even if it comes after the closure ran. */
  lemma {:induction false} LastErrorIsReported(s: CallState, es: seq<Event>, hasClosure: bool)
    ensures var t := Run(s, es, hasClosure); var errors := Errors(es, s.finished, hasClosure);
      if errors == [] then t.errorCode == s.errorCode && t.errorInfo == s.errorInfo && t.failed == s.failed
      else t.failed && (t.errorCode, t.errorInfo) == errors[|errors| - 1]
    decreases |es|
  {
    hide Step;
    if es != [] {
      StepIs(s, es[0], hasClosure);
      LastErrorIsReported(Step(s, es[0], hasClosure), es[1..], hasClosure);
    }
  }

  /** A connect failure or reply that comes first is not undone by a timeout that comes after it, as long
      as no further reply with an error arrives. */
  lemma {:induction false} FirstCompletionStands(first: Event, es: seq<Event>)
    requires first.ConnectFailed? || first.Reply?
    requires forall i :: 0 <= i < |es| ==> es[i].Timeout? || es[i].Connected?
    ensures Run(NEW_CALL, [first] + es, true) == Step(NEW_CALL, first, true)
  {
    assert ([first] + es)[1..] == es;
    QuietRun(Step(NEW_CALL, first, true), es);
  }

  lemma {:induction false} QuietRun(s: CallState, es: seq<Event>)
    requires s.finished && forall i :: 0 <= i < |es| ==> es[i].Timeout? || es[i].Connected?
    ensures Run(s, es, true) == s
    decreases |es|
  {
    if es != [] {
      QuietRun(s, es[1..]);
    }
  }

  /** Without a closure no reply and no connect failure finishes a call: it ends cancelled exactly when a
      timeout occurs, before or after them. */
  lemma {:induction false} NoClosureNeverCompletes(s: CallState, es: seq<Event>)
    requires s.finished <==> s.canceled
    ensures var t := Run(s, es, false);
      t.runs == s.runs && (t.finished <==> t.canceled) &&
      (t.canceled <==> s.canceled || exists i :: 0 <= i < |es| && es[i].Timeout?)
    decreases |es|
  {
    if es != [] {
      NoClosureNeverCompletes(Step(s, es[0], false), es[1..]);
      assert forall i :: 1 <= i < |es| ==> es[i] == es[1..][i - 1];
    }
  }

  // ---------------------------------------------------------------------------------------------

  class RpcController {
    var myErrorCode: Int32
    var myErrorInfo: string
    var myMessageID: seq<Byte>
    var myIsFailed: bool
    var myIsCanceled: bool
    var myIsFinished: bool
    var myTimeout: int

    constructor ()
      ensures !myIsFailed && !myIsCanceled && !myIsFinished
      ensures myErrorCode == 0 && myErrorInfo == "" && myMessageID == [] && myTimeout == 1000
    {
      myErrorCode, myErrorInfo, myMessageID, myTimeout := 0, "", [], 1000;
      myIsFailed, myIsCanceled, myIsFinished := false, false, false;
    }

    method SetFinished(value: bool)
      modifies this`myIsFinished
      ensures myIsFinished == value
    {
      myIsFinished := value;
    }

    method StartCancel()
      modifies this`myIsCanceled, this`myIsFailed, this`myIsFinished
      ensures myIsCanceled && myIsFailed && myIsFinished
    {
      myIsCanceled := true;
      myIsFailed := true;
      SetFinished(true);
    }

    method SetError(errorCode: Int32, errorInfo: string)
      modifies this`myErrorCode, this`myErrorInfo, this`myIsFailed
      ensures myErrorCode == errorCode && myErrorInfo == errorInfo && myIsFailed
    {
      myErrorCode := errorCode;
      myErrorInfo := errorInfo;
      myIsFailed := true;
    }
  }

  class RpcChannel {
    const myController: RpcController
    const hasClosure: bool
    var runs: nat   // runs of the closure

    constructor (controller: RpcController, hasClosure: bool)
      ensures this.hasClosure == hasClosure && myController == controller && runs == 0
    {
      myController, this.hasClosure, runs := controller, hasClosure, 0;
    }

    ghost function View(): CallState
      reads this, myController
    {
      CallState(runs, myController.myIsFinished, myController.myIsCanceled, myController.myIsFailed,
                myController.myErrorCode, myController.myErrorInfo)
    }

    method MyCallBack()
      modifies this, myController
      ensures View() == CalledBack(old(View()), hasClosure)
    {
      if myController.myIsFinished {
        return;
      }
      if hasClosure {
        runs := runs + 1;
        myController.SetFinished(true);
      }
    }

    method OnTimeout(text: string)
      modifies this, myController
      ensures View() == Step(old(View()), Timeout(text), hasClosure)
    {
      if myController.myIsFinished {
        return;
      }
      myController.StartCancel();
      myController.SetError(ERROR_RPC_CALL_TIMEOUT, text);
      MyCallBack();
    }

    /** The connect callback; a connect error code of zero means connected. */
    method OnConnect(connectErrorCode: Int32, connectErrorInfo: string)
      modifies this, myController
      ensures View() == Step(old(View()),
                             if connectErrorCode != 0 then ConnectFailed(connectErrorCode, connectErrorInfo)
                             else Connected,
                             hasClosure)
    {
      if connectErrorCode != 0 {
        myController.SetError(connectErrorCode, connectErrorInfo);
        MyCallBack();
        return;
      }
    }

    method OnReply(readable: bool, code: Int32, info: string)
      modifies this, myController
      ensures View() == Step(old(View()), Reply(readable, code, info), hasClosure)
    {
      if !readable {
        myController.SetError(ERROR_FAILED_DESERIALIZE, "deserialize error");
        MyCallBack();
        return;
      }
      if code != 0 {
        myController.SetError(code, info);
        MyCallBack();
        return;
      }
      MyCallBack();
    }
  }
}
