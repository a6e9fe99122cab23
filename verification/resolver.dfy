/** The first-hit header resolver `TRY_INCLUDE4` and the existence probe it relies on.

    As written, the macro puts `#if`/`#elif`/`#include` lines inside a `#define` body. In
    a function-like macro every `#` must be followed by a parameter, so a C preprocessor
    rejects the definition itself ("'#' is not followed by a macro parameter") and the
    macro is never expanded. This module models the evident intent of that text, an
    `#if`/`#elif`/`#else` chain over the four candidates, not what a compiler would do
    with it. */
module Resolver {
  import opened Wrappers
  import opened Headers
  import opened Diagnostics

  /** What one resolution contributes to the translation unit: a single `#include` of the
      chosen candidate, or a single error diagnostic. Being one value, an expansion can never
      hold both, nor two includes. */
  datatype Directive = Include(header: Candidate) | Error(message: string)

  /** The probe accepts `cands[k]` and rejects every earlier candidate. */
  ghost predicate IsFirstHit(cands: seq<Candidate>, probe: Candidate -> bool, k: int) {
    && 0 <= k < |cands|
    && probe(cands[k])
    && forall j :: 0 <= j < k ==> !probe(cands[j])
  }

  /** The position of the first candidate the probe accepts at or after `from`, if any. */
  function FirstHitFrom(cands: seq<Candidate>, probe: Candidate -> bool, from: nat): (r: Option<nat>)
    requires from <= |cands|
    decreases |cands| - from
    ensures r.Some? ==> from <= r.value < |cands| && probe(cands[r.value])
    ensures r.Some? ==> forall j :: from <= j < r.value ==> !probe(cands[j])
    ensures r.None? ==> forall j :: from <= j < |cands| ==> !probe(cands[j])
  {
    if from == |cands| then None
    else if probe(cands[from]) then Some(from)
    else FirstHitFrom(cands, probe, from + 1)
  }

  /** Probes the candidates in order and commits to the first one the probe accepts; when
      it accepts none the result is the error diagnostic naming every candidate. */
  function Resolve(cands: seq<Candidate>, probe: Candidate -> bool): (d: Directive)
    ensures d.Include? ==> exists k :: IsFirstHit(cands, probe, k) && d.header == cands[k]
    ensures d.Error? <==> forall j :: 0 <= j < |cands| ==> !probe(cands[j])
    ensures d.Error? ==> d.message == Message(cands)
  {
    match FirstHitFrom(cands, probe, 0)
    case Some(k) =>
      assert IsFirstHit(cands, probe, k);
      Include(cands[k])
    case None => Error(Message(cands))
  }

  /** A failed resolution's diagnostic names all the candidates, in declared order: reading
      it back recovers the list. */
  lemma ResolveFailureNamesAllCandidates(cands: seq<Candidate>, probe: Candidate -> bool)
    requires 1 <= |cands|
    requires forall j :: 0 <= j < |cands| ==> Blankless(cands[j].path)
    requires Resolve(cands, probe).Error?
    ensures ParseMessage(Resolve(cands, probe).message) == Some(cands)
  {
    MessageRoundTrip(cands);
  }

  /** There is at most one first hit. */
  lemma FirstHitUnique(cands: seq<Candidate>, probe: Candidate -> bool, k: int, k': int)
    requires IsFirstHit(cands, probe, k) && IsFirstHit(cands, probe, k')
    ensures k == k'
  {
  }

  /** The resolver chooses candidate `k` exactly when `k` is the first hit: the probe
      accepts it and rejects every earlier candidate. */
  lemma ResolveChoosesFirstHit(cands: seq<Candidate>, probe: Candidate -> bool, k: int)
    requires 0 <= k < |cands|
    ensures IsFirstHit(cands, probe, k) ==> Resolve(cands, probe) == Include(cands[k])
    ensures Resolve(cands, probe) == Include(cands[k]) ==>
              exists k' :: IsFirstHit(cands, probe, k') && cands[k'] == cands[k]
  {
    var d := Resolve(cands, probe);
    if IsFirstHit(cands, probe, k) {
      assert d.Include?;
      var k' :| IsFirstHit(cands, probe, k') && d.header == cands[k'];
      FirstHitUnique(cands, probe, k, k');
    }
  }

  /** Once a candidate is the first hit, the later candidates are never consulted: any
      probe that agrees up to and including it resolves to the same include. */
  lemma ResolveIgnoresLaterCandidates(cands: seq<Candidate>, p: Candidate -> bool, q: Candidate -> bool, k: int)
    requires IsFirstHit(cands, p, k)
    requires forall j :: 0 <= j <= k ==> p(cands[j]) == q(cands[j])
    ensures Resolve(cands, p) == Resolve(cands, q) == Include(cands[k])
  {
    assert IsFirstHit(cands, q, k);
    ResolveChoosesFirstHit(cands, p, k);
    ResolveChoosesFirstHit(cands, q, k);
  }

  /** `TRY_INCLUDE4(H1, H2, H3, H4)`: an `#if`/`#elif` chain probing the four candidates in
      order, with the `#else` branch raising the diagnostic that names all four. */
  function TryInclude4(h1: Candidate, h2: Candidate, h3: Candidate, h4: Candidate,
                       probe: Candidate -> bool): (d: Directive)
    ensures probe(h1) ==> d == Include(h1)
    ensures d.Include? ==> probe(d.header) && d.header in [h1, h2, h3, h4]
    ensures d.Error? <==> !probe(h1) && !probe(h2) && !probe(h3) && !probe(h4)
  {
    if probe(h1) then Include(h1)
    else if probe(h2) then Include(h2)
    else if probe(h3) then Include(h3)
    else if probe(h4) then Include(h4)
    else Error(Message([h1, h2, h3, h4]))
  }

  /** The four-way chain is the general resolver on the list `[H1, H2, H3, H4]`: it picks
      the first accepted candidate, and fails with the same diagnostic. */
  lemma TryInclude4IsResolve(h1: Candidate, h2: Candidate, h3: Candidate, h4: Candidate,
                             probe: Candidate -> bool)
    ensures TryInclude4(h1, h2, h3, h4, probe) == Resolve([h1, h2, h3, h4], probe)
  {
    var cands := [h1, h2, h3, h4];
    if probe(h1) {
      ResolveChoosesFirstHit(cands, probe, 0);
    } else if probe(h2) {
      ResolveChoosesFirstHit(cands, probe, 1);
    } else if probe(h3) {
      ResolveChoosesFirstHit(cands, probe, 2);
    } else if probe(h4) {
      ResolveChoosesFirstHit(cands, probe, 3);
    }
  }

  /** The probe `__has_include` stands for. A toolchain that has the operator answers with
      its own existence test; one that lacks it gets the fallback definition `0`, which
      answers no for every candidate. */
  function HasInclude(native: Option<Candidate -> bool>): (probe: Candidate -> bool)
    ensures native.None? ==> forall c :: !probe(c)
    ensures native.Some? ==> forall c :: probe(c) == native.value(c)
  {
    match native
    case Some(present) => present
    case None => c => false
  }

  /** Without `__has_include` every resolution ends in its error diagnostic. */
  lemma WithoutHasIncludeResolutionFails(cands: seq<Candidate>)
    ensures Resolve(cands, HasInclude(None)) == Error(Message(cands))
  {
  }
}
