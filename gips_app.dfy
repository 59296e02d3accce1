/**
 * The small state setters of the application object (src/gips_app.h):
 * which filter stage is shown, the status line, and the pending pipeline
 * change request that the event loop carries out later.
 *
 * Everything else `App` holds (window, GL objects, zoom and pan, the
 * source image) belongs to the SDL/ImGui front end and is not modelled.
 */
module GipsApp {
  import opened StringUtil
  import GipsCore

  datatype StatusType = Neutral | Success | Error

  /** The kinds of pipeline change request. */
  datatype RequestType =
    | NoRequest | InsertNode | ReloadNode | RemoveNode | MoveNode | UpdateSource | LoadImage | SaveResult

  /**
   * A pipeline change request: node indices are 1-based, `targetIndex` is
   * used by `MoveNode` only and `path` by `InsertNode`, `LoadImage` and
   * `SaveResult`.
   */
  datatype ChangeRequest = ChangeRequest(kind: RequestType, nodeIndex: int, targetIndex: int, path: string)

  const NoChange := ChangeRequest(NoRequest, 0, 0, [])

  /** The shown stage for a requested one: clamped to 0 (the input) .. `count` (the last filter). */
  function ShowIndexFor(i: int, count: nat): (r: nat)
    ensures r <= count
    ensures 0 <= i <= count ==> r == i
    ensures i < 0 ==> r == 0
    ensures i > count ==> r == count
  {
    if i < 0 then 0 else if i > count then count else i
  }

  /** Clamping twice is clamping once. */
  lemma ShowIndexIdempotent(i: int, count: nat)
    ensures ShowIndexFor(ShowIndexFor(i, count), count) == ShowIndexFor(i, count)
  {
  }

  /** A later stage asked for is never shown before an earlier one. */
  lemma ShowIndexMonotone(i: int, j: int, count: nat)
    requires i <= j
    ensures ShowIndexFor(i, count) <= ShowIndexFor(j, count)
  {
  }

  /** The status text a `const char*` message leaves: the message, or nothing for a null or empty one. */
  function StatusTextFor(msg: Option<string>): (r: string)
    ensures msg.Some? && msg.value != [] ==> r == msg.value
    ensures msg.None? || msg.value == [] ==> r == []
  {
    if msg.Some? && msg.value != [] then msg.value else []
  }

  /** A `std::string` handed on as `c_str()`: only the part before an embedded NUL arrives. */
  function CStringOf(msg: string): (r: string)
    ensures '\0' !in r
    ensures '\0' !in msg ==> r == msg
    ensures '\0' in msg ==> |r| < |msg| && msg[|r|] == '\0' && r == msg[..|r|]
  {
    CStr(msg + ['\0'])
  }

  class App {
    const pipeline: GipsCore.Pipeline
    var showIndex: int
    var statusText: string
    var statusType: StatusType
    var statusVisible: bool
    var pcr: ChangeRequest

    /** The status line is shown exactly when it has text. */
    predicate StatusConsistent()
      reads this
    {
      statusVisible <==> statusText != []
    }

    constructor ()
      ensures fresh(pipeline) && pipeline.Valid() && pipeline.nodes == []
      ensures showIndex == 0 && statusText == [] && statusType == Neutral && !statusVisible
      ensures pcr == NoChange && StatusConsistent()
    {
      pipeline := new GipsCore.Pipeline();
      showIndex := 0;
      statusText := [];
      statusType := Neutral;
      statusVisible := false;
      pcr := NoChange;
    }

    /** `setShowIndex`: store the clamped stage number and return it. */
    method SetShowIndex(i: int) returns (r: int)
      modifies this
      ensures r == showIndex == ShowIndexFor(i, pipeline.NodeCount())
      ensures 0 <= r <= pipeline.NodeCount()
      ensures statusText == old(statusText) && statusType == old(statusType)
      ensures statusVisible == old(statusVisible) && pcr == old(pcr)
    {
      var n := pipeline.NodeCount();
      showIndex := if i < 0 then 0 else if i > n then n else i;
      return showIndex;
    }

    /** `setStatus`: the type always; the text and visibility from the message. */
    method SetStatus(kind: StatusType, msg: Option<string>)
      modifies this
      ensures statusType == kind && statusText == StatusTextFor(msg)
      ensures statusVisible <==> msg.Some? && msg.value != []
      ensures StatusConsistent()
      ensures showIndex == old(showIndex) && pcr == old(pcr)
    {
      statusType := kind;
      if msg.Some? && msg.value != [] {
        statusText := msg.value;
        statusVisible := true;
      } else {
        statusText := [];
        statusVisible := false;
      }
    }

    /** `setError(const char*)`: an error status; the caller returns the `false` it gives. */
    method SetError(msg: Option<string>) returns (r: bool)
      modifies this
      ensures !r && statusType == Error && statusText == StatusTextFor(msg) && StatusConsistent()
      ensures showIndex == old(showIndex) && pcr == old(pcr)
    {
      SetStatus(Error, msg);
      return false;
    }

    /** `setError(const std::string&)`: the same, for the message's C string. */
    method SetErrorString(msg: string) returns (r: bool)
      modifies this
      ensures !r && statusType == Error && statusText == CStringOf(msg) && StatusConsistent()
      ensures showIndex == old(showIndex) && pcr == old(pcr)
    {
      r := SetError(Some(CStringOf(msg)));
    }

    /** `setSuccess(const char* = nullptr)`: a success status; gives `true`. */
    method SetSuccess(msg: Option<string>) returns (r: bool)
      modifies this
      ensures r && statusType == Success && statusText == StatusTextFor(msg) && StatusConsistent()
      ensures showIndex == old(showIndex) && pcr == old(pcr)
    {
      SetStatus(Success, msg);
      return true;
    }

    /** `setSuccess(const std::string&)`. */
    method SetSuccessString(msg: string) returns (r: bool)
      modifies this
      ensures r && statusType == Success && statusText == CStringOf(msg) && StatusConsistent()
      ensures showIndex == old(showIndex) && pcr == old(pcr)
    {
      r := SetSuccess(Some(CStringOf(msg)));
    }

    /** The parts of the app that a change request leaves alone. */
    twostate predicate OnlyRequest()
      reads this
    {
      && showIndex == old(showIndex) && statusText == old(statusText)
      && statusType == old(statusType) && statusVisible == old(statusVisible)
    }

    /** `requestInsertNode(filename, nodeIndex = 0)`. */
    method RequestInsertNode(filename: string, nodeIndex: int)
      modifies this
      ensures pcr == old(pcr).(kind := InsertNode, nodeIndex := nodeIndex, path := filename)
      ensures OnlyRequest()
    {
      pcr := pcr.(kind := InsertNode, nodeIndex := nodeIndex, path := filename);
    }

    /** `requestReloadNode`: the target and path of an earlier request stay. */
    method RequestReloadNode(nodeIndex: int)
      modifies this
      ensures pcr == old(pcr).(kind := ReloadNode, nodeIndex := nodeIndex)
      ensures OnlyRequest()
    {
      pcr := pcr.(kind := ReloadNode, nodeIndex := nodeIndex);
    }

    method RequestRemoveNode(nodeIndex: int)
      modifies this
      ensures pcr == old(pcr).(kind := RemoveNode, nodeIndex := nodeIndex)
      ensures OnlyRequest()
    {
      pcr := pcr.(kind := RemoveNode, nodeIndex := nodeIndex);
    }

    method RequestMoveNode(fromIndex: int, toIndex: int)
      modifies this
      ensures pcr == old(pcr).(kind := MoveNode, nodeIndex := fromIndex, targetIndex := toIndex)
      ensures OnlyRequest()
    {
      pcr := pcr.(kind := MoveNode, nodeIndex := fromIndex, targetIndex := toIndex);
    }

    /** `requestUpdateSource`: only the kind changes. */
    method RequestUpdateSource()
      modifies this
      ensures pcr == old(pcr).(kind := UpdateSource)
      ensures OnlyRequest()
    {
      pcr := pcr.(kind := UpdateSource);
    }

    method RequestLoadImage(filename: string)
      modifies this
      ensures pcr == old(pcr).(kind := LoadImage, path := filename)
      ensures OnlyRequest()
    {
      pcr := pcr.(kind := LoadImage, path := filename);
    }

    method RequestSaveResult(filename: string)
      modifies this
      ensures pcr == old(pcr).(kind := SaveResult, path := filename)
      ensures OnlyRequest()
    {
      pcr := pcr.(kind := SaveResult, path := filename);
    }
  }
}
