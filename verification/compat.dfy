/** The compatibility header `cs8409_compat.h`: six HDA headers whose location moves
    between kernel versions and distributions, each resolved through the same four-slot
    candidate pattern, after a fixed list of stable kernel and ALSA headers, all behind an
    include guard. */
module Compat {
  import opened Wrappers
  import opened Headers
  import opened Diagnostics
  import opened Resolver

  /** The six HDA headers resolved portably, one per `INC_HDA_*` macro. */
  datatype HdaHeader = HdaLocal | HdaCodec | HdaJack | HdaAutoParser | HdaBind | HdaGeneric

  /** The file name shared by every candidate of a header. */
  function FileName(h: HdaHeader): string
  {
    match h
    case HdaLocal => "hda_local.h"
    case HdaCodec => "hda_codec.h"
    case HdaJack => "hda_jack.h"
    case HdaAutoParser => "hda_auto_parser.h"
    case HdaBind => "hda_bind.h"
    case HdaGeneric => "hda_generic.h"
  }

  /** The directory each of the four slots puts in front of the file name. */
  const SlotDirectories: seq<string> := ["sound/pci/hda/", "", "sound/hda/", "include/sound/pci/hda/"]

  /** The four candidates an `INC_HDA_*` macro hands to `TRY_INCLUDE4`, in priority order:
      the kernel tree's `<sound/pci/hda/N>`, a local `"N"`, the kernel tree's
      `<sound/hda/N>`, and a local `"include/sound/pci/hda/N"`. The local copy is tried
      second: after `<sound/pci/hda/N>` and before `<sound/hda/N>`. */
  function CandidatesOf(h: HdaHeader): (cs: seq<Candidate>)
    ensures |cs| == |SlotDirectories| == 4
    ensures cs[0].System? && cs[1].Local? && cs[2].System? && cs[3].Local?
    ensures forall i :: 0 <= i < 4 ==> cs[i].path == SlotDirectories[i] + FileName(h)
  {
    var n := FileName(h);
    [System("sound/pci/hda/" + n), Local(n), System("sound/hda/" + n), Local("include/sound/pci/hda/" + n)]
  }

  /** The expansion of one `INC_HDA_*()` line. */
  function Expand(h: HdaHeader, probe: Candidate -> bool): (d: Directive)
    ensures d == Resolve(CandidatesOf(h), probe)
  {
    var cs := CandidatesOf(h);
    TryInclude4IsResolve(cs[0], cs[1], cs[2], cs[3], probe);
    assert cs == [cs[0], cs[1], cs[2], cs[3]];
    TryInclude4(cs[0], cs[1], cs[2], cs[3], probe)
  }

  /** The probe accepts some candidate of `h`. */
  predicate Resolvable(h: HdaHeader, probe: Candidate -> bool) {
    exists j :: 0 <= j < 4 && probe(CandidatesOf(h)[j])
  }

  /** Every HDA header has a candidate the probe accepts. */
  predicate AllResolvable(probe: Candidate -> bool) {
    forall i :: 0 <= i < |ResolutionOrder| ==> Resolvable(ResolutionOrder[i], probe)
  }

  /** `c` is the first candidate of `h` the probe accepts. */
  ghost predicate IsChosen(h: HdaHeader, probe: Candidate -> bool, c: Candidate) {
    exists k :: IsFirstHit(CandidatesOf(h), probe, k) && CandidatesOf(h)[k] == c
  }

  /** The stable kernel and ALSA headers included unconditionally, in declared order. */
  const BaseHeaders: seq<Candidate> := [
    System("linux/module.h"),
    System("linux/init.h"),
    System("linux/delay.h"),
    System("linux/slab.h"),
    System("linux/errno.h"),
    System("linux/types.h"),
    System("linux/version.h"),
    System("sound/core.h"),
    System("sound/asound.h"),
    System("sound/control.h"),
    System("sound/tlv.h"),
    System("sound/pcm.h"),
    System("sound/pcm_params.h"),
    System("sound/initval.h"),
    System("sound/hda_register.h")
  ]

  /** The order in which the `INC_HDA_*()` lines appear. */
  const ResolutionOrder: seq<HdaHeader> := [HdaLocal, HdaCodec, HdaJack, HdaAutoParser, HdaBind, HdaGeneric]

  /** Every header the guarded body names: first the base includes, then one expansion per
      HDA header in resolution order. */
  function Body(probe: Candidate -> bool): (ds: seq<Directive>)
    ensures |ds| == |BaseHeaders| + |ResolutionOrder|
    ensures forall i :: 0 <= i < |BaseHeaders| ==> ds[i] == Include(BaseHeaders[i])
    ensures forall i :: 0 <= i < |ResolutionOrder| ==>
              ds[|BaseHeaders| + i] == Resolve(CandidatesOf(ResolutionOrder[i]), probe)
  {
    BaseIncludes() + Expansions(probe)
  }

  /** The unconditional `#include` lines. */
  function BaseIncludes(): (ds: seq<Directive>)
    ensures |ds| == |BaseHeaders|
    ensures forall i :: 0 <= i < |BaseHeaders| ==> ds[i] == Include(BaseHeaders[i])
  {
    seq(|BaseHeaders|, i requires 0 <= i < |BaseHeaders| => Include(BaseHeaders[i]))
  }

  /** The six `INC_HDA_*()` lines, expanded. */
  function Expansions(probe: Candidate -> bool): (ds: seq<Directive>)
    ensures |ds| == |ResolutionOrder|
    ensures forall i :: 0 <= i < |ResolutionOrder| ==>
              ds[i] == Resolve(CandidatesOf(ResolutionOrder[i]), probe)
  {
    seq(|ResolutionOrder|, i requires 0 <= i < |ResolutionOrder| => Expand(ResolutionOrder[i], probe))
  }

  /** Some directive among `ds` is the error diagnostic with message `m`. */
  ghost predicate Raises(ds: seq<Directive>, m: string) {
    exists i :: 0 <= i < |ds| && ds[i] == Error(m)
  }

  /** The error diagnostics among some directives, in order. */
  function ErrorMessages(ds: seq<Directive>): (ms: seq<string>)
    ensures |ms| == 0 <==> forall i :: 0 <= i < |ds| ==> ds[i].Include?
    ensures forall m :: m in ms <==> Raises(ds, m)
    ensures (forall i :: 0 <= i < |ds| ==> ds[i].Error?) ==>
              |ms| == |ds| && forall i :: 0 <= i < |ds| ==> ms[i] == ds[i].message
  {
    if |ds| == 0 then []
    else
      var rest := ErrorMessages(ds[1..]);
      assert forall i :: 1 <= i < |ds| ==> ds[i] == ds[1..][i - 1];
      match ds[0]
      case Include(_) => rest
      case Error(m) => [m] + rest
  }

  /** Diagnostic `a` is the message of an error directive at some position `p`. */
  lemma {:induction false} ErrorMessageSource(ds: seq<Directive>, a: int) returns (p: int)
    requires 0 <= a < |ErrorMessages(ds)|
    ensures 0 <= p < |ds| && ds[p] == Error(ErrorMessages(ds)[a])
    decreases |ds|
  {
    var tail := ds[1..];
    if ds[0].Error? && a == 0 {
      p := 0;
    } else {
      var q := ErrorMessageSource(tail, if ds[0].Error? then a - 1 else a);
      p := q + 1;
    }
  }

  /** The diagnostics keep the order of the directives that raise them: diagnostics `a < b`
      are the messages of error directives at positions `p < q`. */
  lemma {:induction false} ErrorMessagesKeepOrder(ds: seq<Directive>, a: int, b: int) returns (p: int, q: int)
    requires 0 <= a < b < |ErrorMessages(ds)|
    ensures 0 <= p < q < |ds|
    ensures ds[p] == Error(ErrorMessages(ds)[a]) && ds[q] == Error(ErrorMessages(ds)[b])
    decreases |ds|, 1
  {
    if ds[0].Error? {
      p, q := KeepOrderAfterError(ds, a, b);
    } else {
      var tail := ds[1..];
      assert ErrorMessages(ds) == ErrorMessages(tail);
      var p', q' := ErrorMessagesKeepOrder(tail, a, b);
      assert ds[p' + 1] == tail[p'] && ds[q' + 1] == tail[q'];
      p, q := p' + 1, q' + 1;
    }
  }

  /** `ErrorMessagesKeepOrder` when the first directive is an error. */
  lemma {:induction false} KeepOrderAfterError(ds: seq<Directive>, a: int, b: int) returns (p: int, q: int)
    requires 0 <= a < b < |ErrorMessages(ds)| && ds[0].Error?
    ensures 0 <= p < q < |ds|
    ensures ds[p] == Error(ErrorMessages(ds)[a]) && ds[q] == Error(ErrorMessages(ds)[b])
    decreases |ds|, 0
  {
    if a == 0 {
      q := LaterErrorSource(ds, b);
      p := 0;
    } else {
      var tail := ds[1..];
      ErrorHeadShifts(ds, b);
      var p', q' := ErrorMessagesKeepOrder(tail, a - 1, b - 1);
      p, q := ShiftPositions(ds, a, b, p', q');
    }
  }

  /** Positions in the rest of the directives, moved back onto the whole. */
  lemma ShiftPositions(ds: seq<Directive>, a: int, b: int, p': int, q': int) returns (p: int, q: int)
    requires 0 < a < b < |ErrorMessages(ds)| && ds[0].Error?
    requires 0 <= p' < q' < |ds| - 1
    requires ds[1..][p'] == Error(ErrorMessages(ds[1..])[a - 1])
    requires ds[1..][q'] == Error(ErrorMessages(ds[1..])[b - 1])
    ensures 0 <= p < q < |ds|
    ensures ds[p] == Error(ErrorMessages(ds)[a]) && ds[q] == Error(ErrorMessages(ds)[b])
  {
    ErrorHeadShifts(ds, a);
    ErrorHeadShifts(ds, b);
    p, q := p' + 1, q' + 1;
  }

  /** After a leading error, diagnostic `a` is diagnostic `a - 1` of the rest. */
  lemma ErrorHeadShifts(ds: seq<Directive>, a: int)
    requires 0 < a < |ErrorMessages(ds)| && ds[0].Error?
    ensures |ErrorMessages(ds[1..])| == |ErrorMessages(ds)| - 1
    ensures ErrorMessages(ds)[a] == ErrorMessages(ds[1..])[a - 1]
  {
    assert ErrorMessages(ds) == [ds[0].message] + ErrorMessages(ds[1..]);
  }

  /** When the first directive is an error, every later diagnostic comes from a later
      directive. */
  lemma LaterErrorSource(ds: seq<Directive>, b: int) returns (q: int)
    requires 0 < b < |ErrorMessages(ds)| && ds[0].Error?
    ensures 0 < q < |ds| && ds[q] == Error(ErrorMessages(ds)[b])
  {
    var tail := ds[1..];
    ErrorHeadShifts(ds, b);
    var q' := ErrorMessageSource(tail, b - 1);
    assert ds[q' + 1] == tail[q'];
    q := q' + 1;
  }

  /** The headers included by some directives, in order. */
  function IncludedHeaders(ds: seq<Directive>): (hs: seq<Candidate>)
    ensures (forall i :: 0 <= i < |ds| ==> ds[i].Include?) ==>
              |hs| == |ds| && forall i :: 0 <= i < |ds| ==> hs[i] == ds[i].header
  {
    if |ds| == 0 then []
    else
      var rest := IncludedHeaders(ds[1..]);
      assert forall i :: 1 <= i < |ds| ==> ds[i] == ds[1..][i - 1];
      match ds[0]
      case Include(c) => [c] + rest
      case Error(_) => rest
  }

  /** Why a build stops short of a complete include list. */
  datatype BuildFailure =
      /** One or more `#pragma GCC error` diagnostics; preprocessing ran to the end. */
    | Unresolved(messages: seq<string>)
      /** An `#include` of a file that does not exist. This error is fatal and ends
          preprocessing at once, after the diagnostics raised before it. */
    | MissingInclude(messages: seq<string>, header: Candidate)

  /** `d` includes a file that does not exist. */
  predicate IsMissingInclude(d: Directive, present: Candidate -> bool) {
    d.Include? && !present(d.header)
  }

  /** The position of the first include of a missing file at or after `from`, if any. */
  function FirstMissingFrom(ds: seq<Directive>, present: Candidate -> bool, from: nat): (r: Option<nat>)
    requires from <= |ds|
    decreases |ds| - from
    ensures r.Some? ==> from <= r.value < |ds| && IsMissingInclude(ds[r.value], present)
    ensures r.Some? ==> forall j :: from <= j < r.value ==> !IsMissingInclude(ds[j], present)
    ensures r.None? ==> forall j :: from <= j < |ds| ==> !IsMissingInclude(ds[j], present)
  {
    if from == |ds| then None
    else if IsMissingInclude(ds[from], present) then Some(from)
    else FirstMissingFrom(ds, present, from + 1)
  }

  /** What preprocessing some directives yields when `present` says which files exist.
      The first include of a missing file stops the build. Otherwise every diagnostic is
      collected, and the build succeeds only when there is none, yielding the included
      headers in order. */
  function Outcome(ds: seq<Directive>, present: Candidate -> bool): (r: Result<seq<Candidate>, BuildFailure>)
    ensures r.Success? <==> forall i :: 0 <= i < |ds| ==> ds[i].Include? && present(ds[i].header)
    ensures r.Success? ==> |r.value| == |ds| && forall i :: 0 <= i < |ds| ==> r.value[i] == ds[i].header
    ensures r.Failure? && r.error.MissingInclude? ==>
              exists k :: 0 <= k < |ds| && ds[k] == Include(r.error.header) && !present(r.error.header)
                          && (forall j :: 0 <= j < k ==> !IsMissingInclude(ds[j], present))
                          && r.error.messages == ErrorMessages(ds[..k])
    ensures r.Failure? && r.error.Unresolved? ==>
              (forall i :: 0 <= i < |ds| ==> !IsMissingInclude(ds[i], present))
              && r.error.messages == ErrorMessages(ds) && |r.error.messages| > 0
  {
    match FirstMissingFrom(ds, present, 0)
    case Some(k) => Failure(MissingInclude(ErrorMessages(ds[..k]), ds[k].header))
    case None =>
      var ms := ErrorMessages(ds);
      if |ms| == 0 then Success(IncludedHeaders(ds)) else Failure(Unresolved(ms))
  }

  /** Every base header exists. */
  predicate BasePresent(present: Candidate -> bool) {
    forall i :: 0 <= i < |BaseHeaders| ==> present(BaseHeaders[i])
  }

  /** The probe only answers yes for files that exist. Both a native `__has_include` and
      the fallback `0` are sound. */
  ghost predicate ProbeSound(probe: Candidate -> bool, present: Candidate -> bool) {
    forall c :: probe(c) ==> present(c)
  }

  /** One HDA slot of the body: it includes a candidate exactly when the header resolves,
      and then the first one the probe accepts; otherwise it is the header's diagnostic. */
  lemma BodySlot(probe: Candidate -> bool, i: int)
    requires 0 <= i < |ResolutionOrder|
    ensures Body(probe)[|BaseHeaders| + i].Include? <==> Resolvable(ResolutionOrder[i], probe)
    ensures Body(probe)[|BaseHeaders| + i].Include? ==>
              IsChosen(ResolutionOrder[i], probe, Body(probe)[|BaseHeaders| + i].header)
    ensures Body(probe)[|BaseHeaders| + i].Include? ==> probe(Body(probe)[|BaseHeaders| + i].header)
    ensures Body(probe)[|BaseHeaders| + i].Error? ==>
              Body(probe)[|BaseHeaders| + i].message == Message(CandidatesOf(ResolutionOrder[i]))
  {
    var h := ResolutionOrder[i];
    var d := Body(probe)[|BaseHeaders| + i];
    assert d == Resolve(CandidatesOf(h), probe);
    if d.Error? {
      assert !Resolvable(h, probe);
    }
  }

  /** The header's contribution to a build: the outcome of its guarded body, where
      `present` says which files exist and `probe` is what `__has_include` answers. */
  function Compose(present: Candidate -> bool, probe: Candidate -> bool): Result<seq<Candidate>, BuildFailure>
  {
    Outcome(Body(probe), present)
  }

  /** All fifteen base headers and all six HDA headers are mandatory: with a sound probe,
      the composition succeeds exactly when every base header exists and every HDA header
      has a candidate the probe accepts. */
  lemma ComposeSucceedsIffAllResolve(present: Candidate -> bool, probe: Candidate -> bool)
    requires ProbeSound(probe, present)
    ensures Compose(present, probe).Success? <==> BasePresent(present) && AllResolvable(probe)
  {
    var ds := Body(probe);
    forall i | 0 <= i < |ResolutionOrder| {
      BodySlot(probe, i);
    }
    if BasePresent(present) && AllResolvable(probe) {
      forall j | 0 <= j < |ds|
        ensures ds[j].Include? && present(ds[j].header)
      {
        if |BaseHeaders| <= j {
          BodySlot(probe, j - |BaseHeaders|);
        }
      }
    } else if !BasePresent(present) {
      var i :| 0 <= i < |BaseHeaders| && !present(BaseHeaders[i]);
      assert ds[i] == Include(BaseHeaders[i]);
    } else {
      var i :| 0 <= i < |ResolutionOrder| && !Resolvable(ResolutionOrder[i], probe);
      assert !ds[|BaseHeaders| + i].Include?;
    }
  }

  /** When every base header exists and every HDA header resolves through a sound probe,
      the composition is the fifteen base headers in declared order, then the first
      accepted candidate of each HDA header in resolution order. */
  lemma ComposeOrder(present: Candidate -> bool, probe: Candidate -> bool)
    requires ProbeSound(probe, present) && BasePresent(present) && AllResolvable(probe)
    ensures Compose(present, probe).Success?
    ensures |Compose(present, probe).value| == |BaseHeaders| + |ResolutionOrder|
    ensures Compose(present, probe).value[..|BaseHeaders|] == BaseHeaders
    ensures forall i :: 0 <= i < |ResolutionOrder| ==>
              IsChosen(ResolutionOrder[i], probe, Compose(present, probe).value[|BaseHeaders| + i])
  {
    ComposeSucceedsIffAllResolve(present, probe);
    var ds := Body(probe);
    var hs := Compose(present, probe).value;
    forall i | 0 <= i < |ResolutionOrder|
      ensures IsChosen(ResolutionOrder[i], probe, hs[|BaseHeaders| + i])
    {
      BodySlot(probe, i);
    }
  }

  /** A missing base header stops the build at once, before any HDA header is resolved:
      the failure names the first missing base header and carries no diagnostic. */
  lemma ComposeStopsAtFirstMissingBase(present: Candidate -> bool, probe: Candidate -> bool)
    requires !BasePresent(present)
    ensures exists k :: 0 <= k < |BaseHeaders| && !present(BaseHeaders[k])
                        && (forall j :: 0 <= j < k ==> present(BaseHeaders[j]))
                        && Compose(present, probe) == Failure(MissingInclude([], BaseHeaders[k]))
  {
    var ds := Body(probe);
    var i :| 0 <= i < |BaseHeaders| && !present(BaseHeaders[i]);
    assert IsMissingInclude(ds[i], present);
    var k := FirstMissingFrom(ds, present, 0).value;
    assert k <= i;
    forall j | 0 <= j < k
      ensures present(BaseHeaders[j])
    {
      assert !IsMissingInclude(ds[j], present);
    }
    assert forall j :: 0 <= j < |ds[..k]| ==> ds[..k][j].Include?;
    assert ErrorMessages(ds[..k]) == [];
  }

  /** Each diagnostic in the body belongs to an HDA header that did not resolve. */
  lemma BodyErrorIsFailingHeader(probe: Candidate -> bool, m: string)
    requires m in ErrorMessages(Body(probe))
    ensures exists i :: 0 <= i < |ResolutionOrder| && !Resolvable(ResolutionOrder[i], probe)
                        && m == Message(CandidatesOf(ResolutionOrder[i]))
  {
    var ds := Body(probe);
    var j :| 0 <= j < |ds| && ds[j] == Error(m);
    assert |BaseHeaders| <= j;
    var i := j - |BaseHeaders|;
    BodySlot(probe, i);
    assert ds[|BaseHeaders| + i] == Error(m);
    assert !Resolvable(ResolutionOrder[i], probe) && m == Message(CandidatesOf(ResolutionOrder[i]));
  }

  /** Each HDA header that does not resolve leaves its diagnostic in the body. */
  lemma FailingHeaderErrorInBody(probe: Candidate -> bool, i: int)
    requires 0 <= i < |ResolutionOrder| && !Resolvable(ResolutionOrder[i], probe)
    ensures Message(CandidatesOf(ResolutionOrder[i])) in ErrorMessages(Body(probe))
  {
    BodySlot(probe, i);
    assert Body(probe)[|BaseHeaders| + i] == Error(Message(CandidatesOf(ResolutionOrder[i])));
  }

  /** When every base header exists but some HDA header does not resolve through a sound
      probe, the composition fails with the diagnostics of exactly the HDA headers that
      did not resolve, and of no other. */
  lemma ComposeFailureNamesFailingHeaders(present: Candidate -> bool, probe: Candidate -> bool)
    requires ProbeSound(probe, present) && BasePresent(present) && !AllResolvable(probe)
    ensures Compose(present, probe).Failure? && Compose(present, probe).error.Unresolved?
    ensures forall m :: m in Compose(present, probe).error.messages <==>
              exists i :: 0 <= i < |ResolutionOrder| && !Resolvable(ResolutionOrder[i], probe)
                          && m == Message(CandidatesOf(ResolutionOrder[i]))
  {
    var ds := Body(probe);
    forall j | 0 <= j < |ds|
      ensures !IsMissingInclude(ds[j], present)
    {
      if |BaseHeaders| <= j {
        BodySlot(probe, j - |BaseHeaders|);
      }
    }
    ComposeSucceedsIffAllResolve(present, probe);
    var ms := Compose(present, probe).error.messages;
    assert ms == ErrorMessages(ds);
    forall m | m in ms {
      BodyErrorIsFailingHeader(probe, m);
    }
    forall i | 0 <= i < |ResolutionOrder| && !Resolvable(ResolutionOrder[i], probe) {
      FailingHeaderErrorInBody(probe, i);
    }
  }

  /** In such a failed composition each unresolved HDA header raises its diagnostic once,
      and the diagnostics come in resolution order: of any two, the earlier belongs to the
      earlier header, and no two are the same. */
  lemma ComposeFailureInResolutionOrder(present: Candidate -> bool, probe: Candidate -> bool)
    requires ProbeSound(probe, present) && BasePresent(present) && !AllResolvable(probe)
    ensures Compose(present, probe).Failure? && Compose(present, probe).error.Unresolved?
    ensures forall a, b :: 0 <= a < b < |Compose(present, probe).error.messages| ==>
              DiagnosedInOrder(Compose(present, probe).error.messages[a], Compose(present, probe).error.messages[b])
    ensures forall a, b :: 0 <= a < b < |Compose(present, probe).error.messages| ==>
              Compose(present, probe).error.messages[a] != Compose(present, probe).error.messages[b]
  {
    ComposeFailureNamesFailingHeaders(present, probe);
    var ds := Body(probe);
    forall j | 0 <= j < |ds|
      ensures !IsMissingInclude(ds[j], present)
    {
      if |BaseHeaders| <= j {
        BodySlot(probe, j - |BaseHeaders|);
      }
    }
    assert Compose(present, probe).error.messages == ErrorMessages(ds);
    BodyDiagnosticsInOrder(probe);
  }

  /** `m` and `m'` are the diagnostics of two different HDA headers, `m`'s header resolved
      first. */
  ghost predicate DiagnosedInOrder(m: string, m': string) {
    exists i, j :: 0 <= i < j < |ResolutionOrder|
                   && m == Message(CandidatesOf(ResolutionOrder[i]))
                   && m' == Message(CandidatesOf(ResolutionOrder[j]))
  }

  /** The body's diagnostics come in resolution order, one per header: any two of them are
      the diagnostics of two different HDA headers, the earlier header first. */
  lemma BodyDiagnosticsInOrder(probe: Candidate -> bool)
    ensures forall a, b :: 0 <= a < b < |ErrorMessages(Body(probe))| ==>
              DiagnosedInOrder(ErrorMessages(Body(probe))[a], ErrorMessages(Body(probe))[b])
    ensures forall a, b :: 0 <= a < b < |ErrorMessages(Body(probe))| ==>
              ErrorMessages(Body(probe))[a] != ErrorMessages(Body(probe))[b]
  {
    var ms := ErrorMessages(Body(probe));
    forall a, b | 0 <= a < b < |ms|
      ensures DiagnosedInOrder(ms[a], ms[b]) && ms[a] != ms[b]
    {
      DiagnosticPair(probe, a, b);
    }
  }

  /** Diagnostics `a < b` of the body belong to HDA headers `i < j`, and differ. */
  lemma DiagnosticPair(probe: Candidate -> bool, a: int, b: int)
    requires 0 <= a < b < |ErrorMessages(Body(probe))|
    ensures DiagnosedInOrder(ErrorMessages(Body(probe))[a], ErrorMessages(Body(probe))[b])
    ensures ErrorMessages(Body(probe))[a] != ErrorMessages(Body(probe))[b]
  {
    var ds := Body(probe);
    var ms := ErrorMessages(ds);
    var p, q := ErrorMessagesKeepOrder(ds, a, b);
    ErrorSlot(probe, p);
    ErrorSlot(probe, q);
    var i, j := p - |BaseHeaders|, q - |BaseHeaders|;
    assert ms[a] == Message(CandidatesOf(ResolutionOrder[i]));
    assert ms[b] == Message(CandidatesOf(ResolutionOrder[j]));
    assert DiagnosedInOrder(ms[a], ms[b]);
    ResolutionOrderDistinct(i, j);
    DistinctHeadersDistinctMessages(ResolutionOrder[i], ResolutionOrder[j]);
  }

  /** Each HDA header is resolved once. */
  lemma ResolutionOrderDistinct(i: int, j: int)
    requires 0 <= i < j < |ResolutionOrder|
    ensures ResolutionOrder[i] != ResolutionOrder[j]
  {
  }

  /** An error in the body sits in an HDA slot and is that header's diagnostic. */
  lemma ErrorSlot(probe: Candidate -> bool, p: int)
    requires 0 <= p < |Body(probe)| && Body(probe)[p].Error?
    ensures |BaseHeaders| <= p
    ensures Body(probe)[p].message == Message(CandidatesOf(ResolutionOrder[p - |BaseHeaders|]))
  {
    if |BaseHeaders| <= p {
      BodySlot(probe, p - |BaseHeaders|);
    }
  }

  /** Two different HDA headers raise different diagnostics. */
  lemma DistinctHeadersDistinctMessages(h: HdaHeader, h': HdaHeader)
    ensures Message(CandidatesOf(h)) == Message(CandidatesOf(h')) <==> h == h'
  {
    CandidatePathsBlankless(h);
    CandidatePathsBlankless(h');
    MessageInjective(CandidatesOf(h), CandidatesOf(h'));
    if CandidatesOf(h) == CandidatesOf(h') {
      assert FileName(h) == CandidatesOf(h)[1].path == CandidatesOf(h')[1].path == FileName(h');
    }
  }

  /** Diagnostics collect across concatenation. */
  lemma {:induction false} ErrorMessagesAppend(a: seq<Directive>, b: seq<Directive>)
    ensures ErrorMessages(a + b) == ErrorMessages(a) + ErrorMessages(b)
    decreases |a|
  {
    if |a| == 0 {
      assert a + b == b;
    } else {
      assert (a + b)[0] == a[0];
      assert (a + b)[1..] == a[1..] + b;
      ErrorMessagesAppend(a[1..], b);
    }
  }

  /** The unconditional includes never raise a diagnostic. */
  lemma BaseIncludesRaiseNothing()
    ensures ErrorMessages(BaseIncludes()) == []
  {
    var bs := BaseIncludes();
    assert forall i :: 0 <= i < |bs| ==> bs[i].Include?;
  }

  /** Without `__has_include` the probe says no to everything, so the build always fails.
      When every base header exists, each of the six HDA headers fails and the composition
      reports all six diagnostics, in resolution order. */
  lemma WithoutHasIncludeComposeFails(present: Candidate -> bool)
    ensures Compose(present, HasInclude(None)).Failure?
    ensures BasePresent(present) ==>
              Compose(present, HasInclude(None)).error.Unresolved?
              && |Compose(present, HasInclude(None)).error.messages| == |ResolutionOrder|
              && forall i :: 0 <= i < |ResolutionOrder| ==>
                   Compose(present, HasInclude(None)).error.messages[i]
                   == Message(CandidatesOf(ResolutionOrder[i]))
  {
    var probe := HasInclude(None);
    if !BasePresent(present) {
      ComposeStopsAtFirstMissingBase(present, probe);
    } else {
      var es := Expansions(probe);
      forall i | 0 <= i < |ResolutionOrder|
        ensures es[i] == Error(Message(CandidatesOf(ResolutionOrder[i])))
      {
        WithoutHasIncludeResolutionFails(CandidatesOf(ResolutionOrder[i]));
      }
      var ms := ErrorMessages(es);
      assert |ms| == |ResolutionOrder|;
      assert forall i :: 0 <= i < |ResolutionOrder| ==> ms[i] == Message(CandidatesOf(ResolutionOrder[i]));
      ErrorMessagesAppend(BaseIncludes(), es);
      BaseIncludesRaiseNothing();
      assert ErrorMessages(Body(probe)) == [] + ms == ms;
      assert !AllResolvable(probe) by {
        assert !Resolvable(ResolutionOrder[0], probe);
      }
      ComposeFailureNamesFailingHeaders(present, probe);
    }
  }

  /** No file name holds a blank. */
  lemma FileNameBlankless(h: HdaHeader)
    ensures Blankless(FileName(h))
  {
    match h
    case HdaLocal =>
    case HdaCodec =>
    case HdaJack =>
    case HdaAutoParser =>
    case HdaBind =>
    case HdaGeneric =>
  }

  /** No candidate path holds a blank. */
  lemma CandidatePathsBlankless(h: HdaHeader)
    ensures forall j :: 0 <= j < 4 ==> Blankless(CandidatesOf(h)[j].path)
  {
    FileNameBlankless(h);
    assert Blankless("sound/pci/hda/") && Blankless("sound/hda/") && Blankless("include/sound/pci/hda/");
  }

  /** When every base header exists but some HDA header does not resolve through a sound
      probe, every diagnostic can be read back into the full candidate list, in declared
      order, of an HDA header that did not resolve. */
  lemma ComposeFailureDiagnosticsReadBack(present: Candidate -> bool, probe: Candidate -> bool)
    requires ProbeSound(probe, present) && BasePresent(present) && !AllResolvable(probe)
    ensures Compose(present, probe).Failure? && Compose(present, probe).error.Unresolved?
    ensures forall m :: m in Compose(present, probe).error.messages ==>
              exists i :: 0 <= i < |ResolutionOrder| && !Resolvable(ResolutionOrder[i], probe)
                          && ParseMessage(m) == Some(CandidatesOf(ResolutionOrder[i]))
  {
    ComposeFailureNamesFailingHeaders(present, probe);
    forall m | m in Compose(present, probe).error.messages
      ensures exists i :: 0 <= i < |ResolutionOrder| && !Resolvable(ResolutionOrder[i], probe)
                          && ParseMessage(m) == Some(CandidatesOf(ResolutionOrder[i]))
    {
      var i :| 0 <= i < |ResolutionOrder| && !Resolvable(ResolutionOrder[i], probe)
               && m == Message(CandidatesOf(ResolutionOrder[i]));
      CandidatePathsBlankless(ResolutionOrder[i]);
      MessageRoundTrip(CandidatesOf(ResolutionOrder[i]));
    }
  }

  /** All six headers share one candidate pattern: slot `j` has the same kind for every
      header (system, local, system, local) and puts the same directory in front of the
      file name, so two headers' lists differ only in the file name. */
  lemma SameSlotPatternForEveryHeader(h: HdaHeader, h': HdaHeader, j: int)
    requires 0 <= j < 4
    ensures CandidatesOf(h)[j].System? == CandidatesOf(h')[j].System? == (j % 2 == 0)
    ensures EndsWith(CandidatesOf(h)[j].path, FileName(h))
    ensures DirectoryOf(CandidatesOf(h)[j].path, FileName(h))
            == DirectoryOf(CandidatesOf(h')[j].path, FileName(h'))
            == SlotDirectories[j]
  {
    DirectoryAndName(SlotDirectories[j], FileName(h));
    DirectoryAndName(SlotDirectories[j], FileName(h'));
  }

  /** `p` ends with the file name `n`. */
  predicate EndsWith(p: string, n: string) {
    |n| <= |p| && p[|p| - |n|..] == n
  }

  /** What precedes the file name `n` in the path `p`. */
  function DirectoryOf(p: string, n: string): string
    requires |n| <= |p|
  {
    p[..|p| - |n|]
  }

  /** A directory followed by a name splits back into the two. */
  lemma DirectoryAndName(d: string, n: string)
    ensures EndsWith(d + n, n)
    ensures DirectoryOf(d + n, n) == d
  {
  }

  /** The include guard. */
  const Guard: string := "CS8409_COMPAT_H"

  /** The macros the header defines when its body is processed: the guard, the resolver
      and the six `INC_HDA_*` wrappers. */
  const HeaderMacros: set<string> := {
    Guard, "TRY_INCLUDE4", "INC_HDA_LOCAL", "INC_HDA_CODEC", "INC_HDA_JACK",
    "INC_HDA_AUTO", "INC_HDA_BIND", "INC_HDA_GENERIC"
  }

  /** The preprocessor state of a translation unit: the macros defined so far and the
      directives emitted so far. */
  datatype TranslationUnit = TranslationUnit(macros: set<string>, directives: seq<Directive>)

  /** `#include "cs8409_compat.h"`: when the guard is not yet defined, defines the header's
      macros and appends its body; when it is, does nothing. */
  function IncludeCompat(tu: TranslationUnit, probe: Candidate -> bool): (r: TranslationUnit)
    ensures Guard in r.macros
    ensures tu.macros <= r.macros
    ensures |tu.directives| <= |r.directives| && r.directives[..|tu.directives|] == tu.directives
    ensures Guard in tu.macros ==> r == tu
    ensures Guard !in tu.macros ==> HeaderMacros <= r.macros
  {
    if Guard in tu.macros then tu
    else TranslationUnit(tu.macros + HeaderMacros, tu.directives + Body(probe))
  }

  /** Including the header a second time adds nothing, whatever the probe answers then. */
  lemma SecondInclusionAddsNothing(tu: TranslationUnit, p: Candidate -> bool, q: Candidate -> bool)
    ensures IncludeCompat(IncludeCompat(tu, p), q) == IncludeCompat(tu, p)
  {
  }

  /** The header included `n` times in a row. */
  function IncludeRepeatedly(tu: TranslationUnit, probe: Candidate -> bool, n: nat): TranslationUnit
    decreases n
  {
    if n == 0 then tu else IncludeRepeatedly(IncludeCompat(tu, probe), probe, n - 1)
  }

  /** Including the header any positive number of times is the same as including it once. */
  lemma {:induction false} RepeatedInclusionIsSingleInclusion(tu: TranslationUnit, probe: Candidate -> bool, n: nat)
    requires 1 <= n
    ensures IncludeRepeatedly(tu, probe, n) == IncludeCompat(tu, probe)
    decreases n
  {
    if n > 1 {
      RepeatedInclusionIsSingleInclusion(IncludeCompat(tu, probe), probe, n - 1);
      SecondInclusionAddsNothing(tu, probe, probe);
    }
  }

  /** The first inclusion into any unit that has not yet seen the guard defines all of
      the header's macros and appends directives whose build outcome is the composition,
      whatever was included before. */
  lemma FirstInclusionComposes(tu: TranslationUnit, present: Candidate -> bool, probe: Candidate -> bool)
    requires Guard !in tu.macros
    ensures HeaderMacros <= IncludeCompat(tu, probe).macros
    ensures Outcome(IncludeCompat(tu, probe).directives[|tu.directives|..], present) == Compose(present, probe)
  {
    assert IncludeCompat(tu, probe).directives[|tu.directives|..] == Body(probe);
  }
}
