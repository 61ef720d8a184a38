/** Error handling (error_handling.py): the error codes, the handler's
    bounded history, recovery strategies and callbacks, the statistics over
    the history, the log level per code, the exception class `create_error`
    picks, and the user-facing message table. The clock is a parameter. */
module Errors {
  import opened Wrappers
  import opened Enumeration

  /** `ErrorCode`. */
  datatype ErrorCode =
    | DeviceNotFound | DeviceBusy | DevicePermissionDenied | DeviceDisconnected
    | ControlNotSupported | ControlValueOutOfRange | ControlReadOnly
    | FormatNotSupported | ResolutionNotSupported
    | PlatformNotSupported | DependencyMissing | PermissionDenied
    | IoError | Timeout
    | UnknownError

  /** The code's enum value, as it appears in log lines. */
  function CodeValue(c: ErrorCode): string {
    match c
    case DeviceNotFound => "DEVICE_NOT_FOUND"
    case DeviceBusy => "DEVICE_BUSY"
    case DevicePermissionDenied => "DEVICE_PERMISSION_DENIED"
    case DeviceDisconnected => "DEVICE_DISCONNECTED"
    case ControlNotSupported => "CONTROL_NOT_SUPPORTED"
    case ControlValueOutOfRange => "CONTROL_VALUE_OUT_OF_RANGE"
    case ControlReadOnly => "CONTROL_READ_ONLY"
    case FormatNotSupported => "FORMAT_NOT_SUPPORTED"
    case ResolutionNotSupported => "RESOLUTION_NOT_SUPPORTED"
    case PlatformNotSupported => "PLATFORM_NOT_SUPPORTED"
    case DependencyMissing => "DEPENDENCY_MISSING"
    case PermissionDenied => "PERMISSION_DENIED"
    case IoError => "IO_ERROR"
    case Timeout => "TIMEOUT"
    case UnknownError => "UNKNOWN_ERROR"
  }

  /** A context dictionary, as its key/value texts in insertion order. */
  type Context = seq<(string, string)>

  /** `ErrorInfo`. */
  datatype ErrorInfo = ErrorInfo(
    code: ErrorCode,
    message: string,
    details: Option<string>,
    timestamp: Option<real>,
    context: Option<Context>,
    recoverable: bool,
    suggestedAction: Option<string>)

  /** The recovery strategies: the three defaults, or one registered by a
      caller (told apart by a number). */
  datatype Strategy = RetryDeviceAccess | SuggestPermissionFix | SuggestDependencyInstall | Registered(id: nat)

  /** `ErrorHandler`: the history, the strategy per code and the callbacks
      (told apart by a number) in registration order. */
  datatype Handler = Handler(history: seq<ErrorInfo>, strategies: map<ErrorCode, Strategy>, callbacks: seq<nat>)

  /** The most entries the history holds, and how many survive a trim. */
  const HistoryLimit: nat := 1000
  const HistoryKept: nat := 500

  /** A new handler: empty history, no callbacks, the default strategies. */
  function Initial(): (h: Handler)
    ensures h.history == [] && h.callbacks == []
    ensures h.strategies.Keys == {DeviceBusy, DeviceDisconnected, PermissionDenied, DependencyMissing}
    ensures h.strategies[DeviceBusy] == RetryDeviceAccess && h.strategies[DeviceDisconnected] == RetryDeviceAccess
    ensures h.strategies[PermissionDenied] == SuggestPermissionFix
    ensures h.strategies[DependencyMissing] == SuggestDependencyInstall
  {
    var h := Handler([], map[], []);
    var h := RegisterRecoveryStrategy(h, DeviceBusy, RetryDeviceAccess);
    var h := RegisterRecoveryStrategy(h, DeviceDisconnected, RetryDeviceAccess);
    var h := RegisterRecoveryStrategy(h, PermissionDenied, SuggestPermissionFix);
    RegisterRecoveryStrategy(h, DependencyMissing, SuggestDependencyInstall)
  }

  /** `register_recovery_strategy`: the code's strategy is set, replacing
      any earlier one; nothing else changes. */
  function RegisterRecoveryStrategy(h: Handler, code: ErrorCode, strategy: Strategy): (r: Handler)
    ensures r.strategies.Keys == h.strategies.Keys + {code} && r.strategies[code] == strategy
    ensures forall c :: c in h.strategies && c != code ==> r.strategies[c] == h.strategies[c]
    ensures r.history == h.history && r.callbacks == h.callbacks
  {
    h.(strategies := h.strategies[code := strategy])
  }

  /** `add_error_callback`: the callback joins the end of the list. */
  function AddErrorCallback(h: Handler, callback: nat): (r: Handler)
    ensures |r.callbacks| == |h.callbacks| + 1 && r.callbacks[..|h.callbacks|] == h.callbacks
    ensures r.callbacks[|h.callbacks|] == callback
    ensures r.history == h.history && r.strategies == h.strategies
  {
    h.(callbacks := h.callbacks + [callback])
  }

  /** `clear_error_history`. */
  function ClearErrorHistory(h: Handler): (r: Handler)
    ensures r.history == [] && r.strategies == h.strategies && r.callbacks == h.callbacks
  {
    h.(history := [])
  }

  // ---------------------------------------------------------------------
  // Logging

  /** The logger method `_log_error` uses. */
  datatype LogLevel = Info | Warning | Error | Critical

  /** Device not found or disconnected is a warning, an unsupported platform
      or a missing dependency an error, an unknown error critical, and
      everything else information. */
  function LogLevelOf(c: ErrorCode): (r: LogLevel)
    ensures r == Warning <==> c == DeviceNotFound || c == DeviceDisconnected
    ensures r == Error <==> c == PlatformNotSupported || c == DependencyMissing
    ensures r == Critical <==> c == UnknownError
    ensures r == Info <==> !(c in {DeviceNotFound, DeviceDisconnected, PlatformNotSupported, DependencyMissing, UnknownError})
  {
    if c == DeviceNotFound || c == DeviceDisconnected then Warning
    else if c == PlatformNotSupported || c == DependencyMissing then Error
    else if c == UnknownError then Critical
    else Info
  }

  /** Python truthiness of an optional text: present and non-empty. */
  predicate Given(s: Option<string>) {
    s.Some? && s.value != []
  }

  /** The line `_log_error` writes: the code and message, then the details,
      the context (rendered by `repr`) and the suggested action, each only
      when present and non-empty. */
  function LogMessage(info: ErrorInfo, repr: Context -> string): (r: string)
    ensures |r| >= |CodeValue(info.code)| + 3 + |info.message|
    ensures r[..|CodeValue(info.code)| + 3 + |info.message|] == "[" + CodeValue(info.code) + "] " + info.message
    ensures !Given(info.details) && !(info.context.Some? && info.context.value != []) && !Given(info.suggestedAction) ==>
      r == "[" + CodeValue(info.code) + "] " + info.message
  {
    var head := "[" + CodeValue(info.code) + "] " + info.message;
    var withDetails := if Given(info.details) then head + " - " + info.details.value else head;
    var withContext := if info.context.Some? && info.context.value != [] then withDetails + " - Context: " + repr(info.context.value) else withDetails;
    var line := if Given(info.suggestedAction) then withContext + " - Suggested: " + info.suggestedAction.value else withContext;
    assert line[..|head|] == head;
    line
  }

  // ---------------------------------------------------------------------
  // Handling an error

  /** What `handle_error` did: the handler afterwards, the recorded error,
      the log level, the callbacks it called in order, and the recovery
      strategy it ran, if any. Exceptions raised by callbacks and strategies
      are caught and logged, so they do not change the outcome. */
  datatype Handled = Handled(handler: Handler, info: ErrorInfo, level: LogLevel, called: seq<nat>, recovery: Option<Strategy>)

  /** The history after appending: past the limit, only the newest
      `HistoryKept` entries stay. */
  function Append(history: seq<ErrorInfo>, info: ErrorInfo): (r: seq<ErrorInfo>)
    ensures |r| <= HistoryLimit
    ensures r != [] && r[|r| - 1] == info
    ensures |history| < HistoryLimit ==> r == history + [info]
    ensures |history| >= HistoryLimit ==> |r| == HistoryKept && r == (history + [info])[|history| + 1 - HistoryKept..]
  {
    var grown := history + [info];
    if |grown| > HistoryLimit then grown[|grown| - HistoryKept..] else grown
  }

  /** `handle_error`: the error is stamped with `now`, a missing or empty
      context becomes an empty one, the error is logged at its code's
      level, appended to the history (trimmed past the limit), every
      callback is called in order, and the code's strategy runs exactly
      when the error is recoverable and a strategy is registered. */
  function HandleError(
    h: Handler, code: ErrorCode, message: string, details: Option<string>, context: Option<Context>,
    recoverable: bool, suggestedAction: Option<string>, now: real): (r: Handled)
    ensures r.info == ErrorInfo(code, message, details, Some(now),
      Some(if context.Some? then context.value else []), recoverable, suggestedAction)
    ensures r.level == LogLevelOf(code)
    ensures r.handler.history == Append(h.history, r.info)
    ensures r.handler.strategies == h.strategies && r.handler.callbacks == h.callbacks
    ensures r.called == h.callbacks
    ensures r.recovery.Some? <==> recoverable && code in h.strategies
    ensures r.recovery.Some? ==> r.recovery.value == h.strategies[code]
  {
    var info := ErrorInfo(code, message, details, Some(now),
      Some(if context.Some? && context.value != [] then context.value else []), recoverable, suggestedAction);
    var recovery := if recoverable && code in h.strategies then Some(h.strategies[code]) else None;
    Handled(h.(history := Append(h.history, info)), info, LogLevelOf(code), h.callbacks, recovery)
  }

  /** However many errors are handled, the history never exceeds the
      limit and always ends with the latest error; the newest entries are
      kept in the order they were handled. */
  lemma {:induction false} HistoryStaysBounded(h: Handler, errors: seq<ErrorCode>, now: real)
    requires |h.history| <= HistoryLimit
    ensures |HandleAll(h, errors, now).history| <= HistoryLimit
    ensures errors != [] ==> HandleAll(h, errors, now).history[|HandleAll(h, errors, now).history| - 1].code == errors[|errors| - 1]
    decreases |errors|
  {
    if errors != [] {
      HistoryStaysBounded(h, errors[..|errors| - 1], now);
    }
  }

  /** Handling a series of recoverable errors, one after the other, with
      message "" and no extras. */
  function HandleAll(h: Handler, errors: seq<ErrorCode>, now: real): (r: Handler)
    ensures r.strategies == h.strategies && r.callbacks == h.callbacks
    decreases |errors|
  {
    if errors == [] then h
    else
      var before := HandleAll(h, errors[..|errors| - 1], now);
      HandleError(before, errors[|errors| - 1], "", None, None, true, None, now).handler
  }

  /** A trim keeps the newest entries in order: what was the history's tail
      is the new history's head. */
  lemma TrimKeepsNewest(history: seq<ErrorInfo>, info: ErrorInfo)
    requires |history| == HistoryLimit
    ensures Append(history, info)[..HistoryKept - 1] == history[HistoryLimit - HistoryKept + 1..]
    ensures forall i :: 0 <= i < HistoryKept - 1 ==> Append(history, info)[i] == history[HistoryLimit - HistoryKept + 1 + i]
  {
    var grown := history + [info];
    assert Append(history, info) == grown[|grown| - HistoryKept..];
    assert grown[|grown| - HistoryKept..][..HistoryKept - 1] == history[HistoryLimit - HistoryKept + 1..];
  }

  /** The default strategies: a device that is busy or disconnected is
      retried, a denied permission or missing dependency gets advice, and
      every other code (the device-level permission error among them) has
      no strategy. */
  lemma DefaultRecovery(code: ErrorCode, now: real)
    ensures HandleError(Initial(), code, "", None, None, true, None, now).recovery.Some?
      <==> code in {DeviceBusy, DeviceDisconnected, PermissionDenied, DependencyMissing}
    ensures HandleError(Initial(), DevicePermissionDenied, "", None, None, true, None, now).recovery.None?
    ensures HandleError(Initial(), DeviceBusy, "", None, None, false, None, now).recovery.None?
  {
    RecoveryFollowsKeys(Initial(), code, now);
  }

  /** With the default strategy codes registered, recovery runs exactly for
      those codes. */
  lemma RecoveryFollowsKeys(h: Handler, code: ErrorCode, now: real)
    requires h.strategies.Keys == {DeviceBusy, DeviceDisconnected, PermissionDenied, DependencyMissing}
    ensures HandleError(h, code, "", None, None, true, None, now).recovery.Some?
      <==> code in {DeviceBusy, DeviceDisconnected, PermissionDenied, DependencyMissing}
  {
    assert code in h.strategies <==> code in h.strategies.Keys;
  }

  // ---------------------------------------------------------------------
  // Statistics

  /** The count of errors with a code, by a pass over the history. */
  function Occurrences(history: seq<ErrorInfo>, c: ErrorCode): (n: nat)
    ensures n <= |history|
  {
    if history == [] then 0
    else Occurrences(history[..|history| - 1], c) + (if history[|history| - 1].code == c then 1 else 0)
  }

  /** The count a tally holds for a code, 0 when the code is absent. */
  function CountFor(counts: seq<(ErrorCode, nat)>, c: ErrorCode): nat {
    if counts == [] then 0
    else if counts[0].0 == c then counts[0].1
    else CountFor(counts[1..], c)
  }

  predicate DistinctCodes(counts: seq<(ErrorCode, nat)>) {
    forall i, j :: 0 <= i < j < |counts| ==> counts[i].0 != counts[j].0
  }

  function Total(counts: seq<(ErrorCode, nat)>): nat {
    if counts == [] then 0 else counts[0].1 + Total(counts[1..])
  }

  /** `error_counts[c] = error_counts.get(c, 0) + 1`: a code already in the
      tally is counted up in place, a new one is appended with count 1. */
  function Tally(counts: seq<(ErrorCode, nat)>, c: ErrorCode): (r: seq<(ErrorCode, nat)>)
    ensures forall d :: CountFor(r, d) == CountFor(counts, d) + (if d == c then 1 else 0)
    ensures Total(r) == Total(counts) + 1
    ensures DistinctCodes(counts) ==> DistinctCodes(r)
    ensures forall i :: 0 <= i < |r| ==> (r[i].0 == c || exists j :: 0 <= j < |counts| && counts[j].0 == r[i].0)
  {
    if counts == [] then [(c, 1)]
    else if counts[0].0 == c then [(c, counts[0].1 + 1)] + counts[1..]
    else
      var rest := Tally(counts[1..], c);
      var r := [counts[0]] + rest;
      assert forall i :: 1 <= i < |r| ==> r[i] == rest[i - 1];
      assert DistinctCodes(counts) ==> DistinctCodes(r) by {
        if DistinctCodes(counts) {
          forall i | 0 <= i < |rest| ensures rest[i].0 != counts[0].0 {
            if rest[i].0 != c {
              var j :| 0 <= j < |counts[1..]| && counts[1..][j].0 == rest[i].0;
              assert counts[j + 1].0 == rest[i].0;
            }
          }
        }
      }
      r
  }

  /** The tally of a history, in order of first appearance. */
  function CountCodes(history: seq<ErrorInfo>): (r: seq<(ErrorCode, nat)>)
    ensures DistinctCodes(r)
    ensures Total(r) == |history|
    ensures forall c :: CountFor(r, c) == Occurrences(history, c)
  {
    if history == [] then []
    else Tally(CountCodes(history[..|history| - 1]), history[|history| - 1].code)
  }

  /** A code already in the tally is counted in place: the codes keep
      their positions. */
  lemma {:induction false} TallyKeepsCodes(counts: seq<(ErrorCode, nat)>, c: ErrorCode, k: nat)
    requires k < |counts| && counts[k].0 == c
    ensures |Tally(counts, c)| == |counts|
    ensures forall i :: 0 <= i < |counts| ==> Tally(counts, c)[i].0 == counts[i].0
  {
    if counts[0].0 != c {
      var rest := Tally(counts[1..], c);
      TallyKeepsCodes(counts[1..], c, k - 1);
      assert Tally(counts, c) == [counts[0]] + rest;
      forall i | 1 <= i < |counts| ensures Tally(counts, c)[i].0 == counts[i].0 {
        assert Tally(counts, c)[i] == rest[i - 1];
        assert counts[i] == counts[1..][i - 1];
      }
    }
  }

  /** A new code is appended last with count 1. */
  lemma {:induction false} TallyAppendsNew(counts: seq<(ErrorCode, nat)>, c: ErrorCode)
    requires forall j :: 0 <= j < |counts| ==> counts[j].0 != c
    ensures Tally(counts, c) == counts + [(c, 1)]
  {
    if counts != [] {
      assert counts[0].0 != c;
      assert forall j :: 0 <= j < |counts[1..]| ==> counts[1..][j] == counts[j + 1];
      TallyAppendsNew(counts[1..], c);
      assert Tally(counts, c) == [counts[0]] + (counts[1..] + [(c, 1)]);
      assert [counts[0]] + (counts[1..] + [(c, 1)]) == counts + [(c, 1)];
    }
  }

  /** A tally without an entry for a code counts it 0. */
  lemma {:induction false} CountForAbsent(counts: seq<(ErrorCode, nat)>, c: ErrorCode)
    requires forall j :: 0 <= j < |counts| ==> counts[j].0 != c
    ensures CountFor(counts, c) == 0
  {
    if counts != [] {
      assert forall j :: 0 <= j < |counts[1..]| ==> counts[1..][j] == counts[j + 1];
      CountForAbsent(counts[1..], c);
    }
  }

  function HasCode(c: ErrorCode): ErrorInfo -> bool {
    (e: ErrorInfo) => e.code == c
  }

  /** The position of the first error with a code, if any. */
  function FirstSeen(history: seq<ErrorInfo>, c: ErrorCode): Option<nat> {
    FirstIndex(history, HasCode(c))
  }

  /** A code has a first position exactly when it occurs. */
  lemma {:induction false} SeenIffOccurs(history: seq<ErrorInfo>, c: ErrorCode)
    ensures FirstSeen(history, c).Some? <==> Occurrences(history, c) > 0
    decreases |history|
  {
    if history != [] {
      var init := history[..|history| - 1];
      var last := history[|history| - 1];
      assert history == init + [last];
      FirstIndexAppend(init, last, HasCode(c));
      SeenIffOccurs(init, c);
    }
  }

  /** Every code of the tally was seen, and codes are listed in the order
      they were first seen. */
  predicate InFirstSeenOrder(history: seq<ErrorInfo>, counts: seq<(ErrorCode, nat)>) {
    (forall i :: 0 <= i < |counts| ==> FirstSeen(history, counts[i].0).Some?)
    && (forall i, j :: 0 <= i < j < |counts| ==>
          FirstSeen(history, counts[i].0).value < FirstSeen(history, counts[j].0).value)
  }

  /** One more error does not move the first position of a code already
      seen. */
  lemma {:induction false} SeenStays(init: seq<ErrorInfo>, last: ErrorInfo, d: ErrorCode)
    requires FirstSeen(init, d).Some?
    ensures FirstSeen(init + [last], d) == FirstSeen(init, d)
  {
    FirstIndexAppend(init, last, HasCode(d));
  }

  /** Counting one more error of a code already tallied keeps the tally in
      first-seen order. */
  lemma {:induction false} TallyInPlaceKeepsOrder(init: seq<ErrorInfo>, last: ErrorInfo, counts: seq<(ErrorCode, nat)>, k: nat)
    requires InFirstSeenOrder(init, counts)
    requires k < |counts| && counts[k].0 == last.code
    ensures InFirstSeenOrder(init + [last], Tally(counts, last.code))
  {
    var r' := Tally(counts, last.code);
    TallyKeepsCodes(counts, last.code, k);
    forall i | 0 <= i < |r'| ensures FirstSeen(init + [last], r'[i].0) == FirstSeen(init, counts[i].0) {
      SeenStays(init, last, counts[i].0);
    }
  }

  /** Counting one more error of a code not yet seen appends it last, which
      keeps the tally in first-seen order. */
  lemma {:induction false} TallyNewKeepsOrder(init: seq<ErrorInfo>, last: ErrorInfo, counts: seq<(ErrorCode, nat)>)
    requires InFirstSeenOrder(init, counts)
    requires forall j :: 0 <= j < |counts| ==> counts[j].0 != last.code
    requires FirstSeen(init, last.code).None?
    ensures InFirstSeenOrder(init + [last], Tally(counts, last.code))
  {
    var c := last.code;
    var r' := Tally(counts, c);
    TallyAppendsNew(counts, c);
    FirstIndexAppend(init, last, HasCode(c));
    assert FirstSeen(init + [last], c) == Some(|init|);
    var h := init + [last];
    forall i | 0 <= i < |counts| ensures FirstSeen(h, r'[i].0) == FirstSeen(init, counts[i].0) {
      assert r'[i] == counts[i];
      SeenStays(init, last, counts[i].0);
    }
    assert r'[|counts|].0 == c;
    OrderAfterAppend(init, h, counts, r');
  }

  /** A tally of one more entry whose earlier codes keep their first
      positions and whose last code first appears at the end stays in
      first-seen order. */
  lemma OrderAfterAppend(init: seq<ErrorInfo>, h: seq<ErrorInfo>, counts: seq<(ErrorCode, nat)>, r': seq<(ErrorCode, nat)>)
    requires InFirstSeenOrder(init, counts)
    requires |r'| == |counts| + 1
    requires forall i :: 0 <= i < |counts| ==> FirstSeen(h, r'[i].0) == FirstSeen(init, counts[i].0)
    requires FirstSeen(h, r'[|counts|].0) == Some(|init|)
    ensures InFirstSeenOrder(h, r')
  {
    forall i, j | 0 <= i < j < |r'| ensures FirstSeen(h, r'[i].0).value < FirstSeen(h, r'[j].0).value {
      assert FirstSeen(init, counts[i].0).value < |init|;
    }
  }

  /** Counting one more error keeps the tally in first-seen order. */
  lemma {:induction false} TallyKeepsFirstSeenOrder(init: seq<ErrorInfo>, last: ErrorInfo, counts: seq<(ErrorCode, nat)>)
    requires InFirstSeenOrder(init, counts)
    requires CountFor(counts, last.code) == Occurrences(init, last.code)
    ensures InFirstSeenOrder(init + [last], Tally(counts, last.code))
  {
    if k :| 0 <= k < |counts| && counts[k].0 == last.code {
      TallyInPlaceKeepsOrder(init, last, counts, k);
    } else {
      CountForAbsent(counts, last.code);
      SeenIffOccurs(init, last.code);
      TallyNewKeepsOrder(init, last, counts);
    }
  }

  /** The tally lists codes in the order of their first appearance in the
      history, which is the insertion order of the dictionary it models. */
  lemma {:induction false} CountCodesInFirstSeenOrder(history: seq<ErrorInfo>)
    ensures InFirstSeenOrder(history, CountCodes(history))
    decreases |history|
  {
    if history != [] {
      var init := history[..|history| - 1];
      var last := history[|history| - 1];
      assert history == init + [last];
      CountCodesInFirstSeenOrder(init);
      TallyKeepsFirstSeenOrder(init, last, CountCodes(init));
    }
  }

  /** `max(error_counts.items(), key=count)`: the first entry whose count is
      the largest. */
  function MostCommon(counts: seq<(ErrorCode, nat)>): (i: nat)
    requires counts != []
    ensures i < |counts|
    ensures forall j :: 0 <= j < |counts| ==> counts[j].1 <= counts[i].1
    ensures forall j :: 0 <= j < i ==> counts[j].1 < counts[i].1
  {
    if |counts| == 1 then 0
    else
      var k := MostCommon(counts[..|counts| - 1]);
      if counts[|counts| - 1].1 > counts[k].1 then |counts| - 1 else k
  }

  /** An error counts as recent when its timestamp is set and not zero and
      less than an hour has passed. */
  function Recent(now: real): ErrorInfo -> bool {
    (e: ErrorInfo) => e.timestamp.Some? && e.timestamp.value != 0.0 && now - e.timestamp.value < 3600.0
  }

  /** The statistics: only a total of zero for an empty history. */
  datatype Statistics =
    | NoErrors
    | Summary(total: nat, counts: seq<(ErrorCode, nat)>, recentCount: nat, mostCommon: ErrorCode)

  /** `get_error_statistics`. */
  function GetErrorStatistics(h: Handler, now: real): (r: Statistics)
    ensures r.NoErrors? <==> h.history == []
    ensures r.Summary? ==> (r.total == |h.history| && Total(r.counts) == r.total
      && DistinctCodes(r.counts)
      && (forall c :: CountFor(r.counts, c) == Occurrences(h.history, c))
      && r.recentCount == |Filter(h.history, Recent(now))|
      && (forall c :: Occurrences(h.history, c) <= Occurrences(h.history, r.mostCommon))
      && FirstSeen(h.history, r.mostCommon).Some?
      && (forall c :: Occurrences(h.history, c) == Occurrences(h.history, r.mostCommon) ==>
            FirstSeen(h.history, c).Some? && FirstSeen(h.history, r.mostCommon).value <= FirstSeen(h.history, c).value))
  {
    if h.history == [] then NoErrors
    else
      var counts := CountCodes(h.history);
      assert counts != [] by {
        assert CountFor(counts, h.history[0].code) == Occurrences(h.history, h.history[0].code);
        OccursOnce(h.history, 0);
      }
      var i := MostCommon(counts);
      MostCommonIsMaximal(counts, i);
      TiesGoToFirstSeen(h.history, i);
      Summary(|h.history|, counts, |Filter(h.history, Recent(now))|, counts[i].0)
  }

  /** A tally in first-seen order whose entry i beats every earlier entry:
      a code counted as often as entry i's code was not seen before it. */
  lemma {:induction false} TieAt(history: seq<ErrorInfo>, counts: seq<(ErrorCode, nat)>, i: nat, c: ErrorCode)
    requires InFirstSeenOrder(history, counts) && DistinctCodes(counts)
    requires i < |counts| && forall j :: 0 <= j < i ==> counts[j].1 < counts[i].1
    requires CountFor(counts, c) == counts[i].1 > 0
    ensures FirstSeen(history, c).Some? && FirstSeen(history, counts[i].0).value <= FirstSeen(history, c).value
  {
    if forall j :: 0 <= j < |counts| ==> counts[j].0 != c {
      CountForAbsent(counts, c);
    }
    var j :| 0 <= j < |counts| && counts[j].0 == c;
    CountForAt(counts, j);
    assert !(j < i);
  }

  /** The entry `max` picks among the tally's entries: among codes with the
      largest count, the one seen first in the history. */
  lemma {:induction false} TiesGoToFirstSeen(history: seq<ErrorInfo>, i: nat)
    requires i < |CountCodes(history)|
    requires forall j :: 0 <= j < i ==> CountCodes(history)[j].1 < CountCodes(history)[i].1
    ensures var m := CountCodes(history)[i].0;
      FirstSeen(history, m).Some?
      && forall c :: Occurrences(history, c) == Occurrences(history, m) ==>
        FirstSeen(history, c).Some? && FirstSeen(history, m).value <= FirstSeen(history, c).value
  {
    var counts := CountCodes(history);
    var m := counts[i].0;
    CountCodesInFirstSeenOrder(history);
    CountForAt(counts, i);
    assert counts[i].1 > 0 by {
      SeenIffOccurs(history, m);
    }
    forall c | Occurrences(history, c) == Occurrences(history, m)
      ensures FirstSeen(history, c).Some? && FirstSeen(history, m).value <= FirstSeen(history, c).value
    {
      TieAt(history, counts, i, c);
    }
  }

  /** A code that occurs in the history has a positive count. */
  lemma {:induction false} OccursOnce(history: seq<ErrorInfo>, k: int)
    requires 0 <= k < |history|
    ensures Occurrences(history, history[k].code) >= 1
    decreases |history|
  {
    if k < |history| - 1 {
      OccursOnce(history[..|history| - 1], k);
    }
  }

  /** The entry with the largest count holds the largest count of any code. */
  lemma MostCommonIsMaximal(counts: seq<(ErrorCode, nat)>, i: nat)
    requires i < |counts|
    requires forall j :: 0 <= j < |counts| ==> counts[j].1 <= counts[i].1
    requires DistinctCodes(counts)
    ensures forall c :: CountFor(counts, c) <= CountFor(counts, counts[i].0) == counts[i].1
  {
    CountForAt(counts, i);
    forall c ensures CountFor(counts, c) <= counts[i].1 {
      CountForBounded(counts, c, counts[i].1);
    }
  }

  lemma {:induction false} CountForAt(counts: seq<(ErrorCode, nat)>, i: nat)
    requires i < |counts| && DistinctCodes(counts)
    ensures CountFor(counts, counts[i].0) == counts[i].1
  {
    if i > 0 {
      CountForAt(counts[1..], i - 1);
    }
  }

  lemma {:induction false} CountForBounded(counts: seq<(ErrorCode, nat)>, c: ErrorCode, bound: nat)
    requires forall j :: 0 <= j < |counts| ==> counts[j].1 <= bound
    ensures CountFor(counts, c) <= bound
  {
    if counts != [] && counts[0].0 != c {
      CountForBounded(counts[1..], c, bound);
    }
  }

  // ---------------------------------------------------------------------
  // Exceptions

  /** The exception classes `create_error` can return. */
  datatype ErrorClass = DeviceError | ControlError | FormatError | SystemError | VideoControlError

  /** The class for a code: the four device codes, the three control codes,
      the two format codes and the three system codes each go to their
      class; IO errors, timeouts and unknown errors to the base class. */
  function ClassOf(c: ErrorCode): (r: ErrorClass)
    ensures r == DeviceError <==> c in {DeviceNotFound, DeviceBusy, DevicePermissionDenied, DeviceDisconnected}
    ensures r == ControlError <==> c in {ControlNotSupported, ControlValueOutOfRange, ControlReadOnly}
    ensures r == FormatError <==> c in {FormatNotSupported, ResolutionNotSupported}
    ensures r == SystemError <==> c in {PlatformNotSupported, DependencyMissing, PermissionDenied}
    ensures r == VideoControlError <==> c in {IoError, Timeout, UnknownError}
  {
    if c in [DeviceNotFound, DeviceBusy, DevicePermissionDenied, DeviceDisconnected] then DeviceError
    else if c in [ControlNotSupported, ControlValueOutOfRange, ControlReadOnly] then ControlError
    else if c in [FormatNotSupported, ResolutionNotSupported] then FormatError
    else if c in [PlatformNotSupported, DependencyMissing, PermissionDenied] then SystemError
    else
      assert c.IoError? || c.Timeout? || c.UnknownError?;
      VideoControlError
  }

  /** A raised error: its class and the information it carries. */
  datatype Raised = Raised(cls: ErrorClass, info: ErrorInfo)

  /** `create_error`: the information stamped with `now`, the other fields
      as given, wrapped in the code's class. */
  function CreateError(
    code: ErrorCode, message: string, details: Option<string>, context: Option<Context>,
    recoverable: bool, suggestedAction: Option<string>, now: real): (r: Raised)
    ensures r.cls == ClassOf(code)
    ensures r.info == ErrorInfo(code, message, details, Some(now), context, recoverable, suggestedAction)
  {
    Raised(ClassOf(code), ErrorInfo(code, message, details, Some(now), context, recoverable, suggestedAction))
  }

  // ---------------------------------------------------------------------
  // User-facing messages

  const Fallback: string := "发生未知错误。"

  /** The message table of `get_user_friendly_message`. */
  const Messages: seq<(ErrorCode, string)> := [
    (DeviceNotFound, "未找到视频设备。请检查摄像头是否已连接。"),
    (DeviceBusy, "设备正在被其他应用程序使用。请关闭其他摄像头应用。"),
    (DevicePermissionDenied, "没有访问设备的权限。请以管理员身份运行或检查设备权限。"),
    (DeviceDisconnected, "设备已断开连接。请重新连接摄像头。"),
    (ControlNotSupported, "设备不支持此控制参数。"),
    (ControlValueOutOfRange, "控制参数值超出有效范围。"),
    (ControlReadOnly, "此控制参数为只读，无法修改。"),
    (FormatNotSupported, "设备不支持此视频格式。"),
    (ResolutionNotSupported, "设备不支持此分辨率。"),
    (PlatformNotSupported, "当前平台不受支持。"),
    (DependencyMissing, "缺少必要的依赖包。请安装相关依赖。"),
    (PermissionDenied, "权限被拒绝。请检查系统权限设置。"),
    (IoError, "输入/输出错误。请检查设备连接。"),
    (Timeout, "操作超时。请重试或检查设备状态。"),
    (UnknownError, "发生未知错误。请查看详细日志信息。")
  ]

  function IsCode(c: ErrorCode): ((ErrorCode, string)) -> bool {
    (e: (ErrorCode, string)) => e.0 == c
  }

  /** `messages.get(error_code, "发生未知错误。")`. */
  function GetUserFriendlyMessage(c: ErrorCode): (r: string)
    ensures r == Fallback <==> FirstIndex(Messages, IsCode(c)).None?
    ensures FirstIndex(Messages, IsCode(c)).Some? ==> r == Messages[FirstIndex(Messages, IsCode(c)).value].1
  {
    match FirstIndex(Messages, IsCode(c))
    case Some(i) =>
      assert Messages[i].1 != Fallback by { MessagesAreSpecific(i); }
      Messages[i].1
    case None => Fallback
  }

  /** No entry of the table is the fallback text. */
  lemma MessagesAreSpecific(i: nat)
    requires i < |Messages|
    ensures Messages[i].1 != Fallback
  {
    assert |Messages[i].1| > |Fallback|;
  }

  /** Every code has an entry of its own: the table is the code's position
      in the enumeration, and no code falls back to the generic text. */
  lemma EveryCodeHasAMessage(c: ErrorCode)
    ensures FirstIndex(Messages, IsCode(c)) == Some(CodeIndex(c))
    ensures GetUserFriendlyMessage(c) == Messages[CodeIndex(c)].1 != Fallback
    ensures forall i :: 0 <= i < |Messages| && Messages[i].0 == c ==> GetUserFriendlyMessage(c) == Messages[i].1
  {
    var i := CodeIndex(c);
    assert Messages[i].0 == c;
    MessageCodeAt(i);
    forall j | 0 <= j < i ensures !IsCode(c)(Messages[j]) {
      MessageCodeAt(j);
      CodeIndexAt(j);
    }
    FirstIndexAt(Messages, IsCode(c), i);
    MessagesAreSpecific(i);
    forall j | 0 <= j < |Messages| && Messages[j].0 == c ensures j == i {
      MessageCodeUnique(c, j);
    }
  }

  /** The table holds one entry per code, at the code's position. */
  lemma MessageCodeUnique(c: ErrorCode, j: nat)
    requires j < |Messages| && Messages[j].0 == c
    ensures j == CodeIndex(c)
  {
    MessageCodeAt(j);
    CodeIndexAt(j);
  }

  /** Entry j of the table is for the j-th code of the enumeration. */
  lemma MessageCodeAt(j: nat)
    requires j < 15
    ensures Messages[j].0 == CodeAt(j)
  {
    if j < 5 {
      if j == 0 {} else if j == 1 {} else if j == 2 {} else if j == 3 {} else {}
    } else if j < 10 {
      if j == 5 {} else if j == 6 {} else if j == 7 {} else if j == 8 {} else {}
    } else {
      if j == 10 {} else if j == 11 {} else if j == 12 {} else if j == 13 {} else {}
    }
  }

  /** The code's position in the enumeration. */
  function CodeIndex(c: ErrorCode): (i: nat)
    ensures i < 15 && CodeAt(i) == c
  {
    match c
    case DeviceNotFound => 0
    case DeviceBusy => 1
    case DevicePermissionDenied => 2
    case DeviceDisconnected => 3
    case ControlNotSupported => 4
    case ControlValueOutOfRange => 5
    case ControlReadOnly => 6
    case FormatNotSupported => 7
    case ResolutionNotSupported => 8
    case PlatformNotSupported => 9
    case DependencyMissing => 10
    case PermissionDenied => 11
    case IoError => 12
    case Timeout => 13
    case UnknownError => 14
  }

  function CodeAt(i: nat): ErrorCode
    requires i < 15
  {
    [DeviceNotFound, DeviceBusy, DevicePermissionDenied, DeviceDisconnected,
     ControlNotSupported, ControlValueOutOfRange, ControlReadOnly,
     FormatNotSupported, ResolutionNotSupported,
     PlatformNotSupported, DependencyMissing, PermissionDenied,
     IoError, Timeout, UnknownError][i]
  }

  lemma CodeIndexAt(j: nat)
    requires j < 15
    ensures CodeIndex(CodeAt(j)) == j
  {
  }
}
