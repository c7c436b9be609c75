/**
 * The foreign libraries behind the patch tools: bsdiff, bspatch and zlib. They are parameters of
 * the model, a `Library` of functions, and what the tools rely on is the predicate `Laws`.
 * Nothing here says that compressing inflated data gives the original bytes back.
 */
module Codecs {
  import opened Bytes

  datatype DeflateParams =
    DeflateParams(level: int32, scheme: int32, windowBits: int32, memLevel: int32, strategy: int32)

  /** The output buffer that both tools hand to deflate(): 32 KiB. */
  const ROOM: nat := 0x8000

  datatype Status = Ok | StreamEnd | Error

  /** What one call of deflate() did. */
  datatype Step = Step(consumed: nat, produced: seq<byte>, status: Status)

  /** A z_stream in terms of what went in and what came out of it so far; `left` is what a Z_FINISH did not take. */
  datatype Encoder = Encoder(params: DeflateParams, fed: seq<byte>, emitted: seq<byte>,
                             full: bool, finishing: bool, left: seq<byte>, ended: bool)

  /** The result of inflating the raw deflate stream that a byte string starts with. */
  datatype Inflated = Inflated(data: seq<byte>, consumed: nat) | NotDeflate

  datatype Library = Library(
    bsdiff: (seq<byte>, seq<byte>) -> seq<byte>,
    bspatch: (seq<byte>, seq<byte>) -> Option<seq<seq<byte>>>,
    inflate: seq<byte> -> Inflated,
    starts: DeflateParams -> bool,
    deflate: (Encoder, seq<byte>, bool) -> Step,
    reachable: Encoder -> bool,
    bound: (DeflateParams, nat) -> nat,
    deflated: (DeflateParams, seq<byte>) -> seq<byte>)

  function Fresh(params: DeflateParams): (e: Encoder) {
    Encoder(params, [], [], false, false, [], false)
  }

  /** The stream after a call that was offered `input`. */
  function After(e: Encoder, input: seq<byte>, finish: bool, s: Step): (e': Encoder)
    requires s.consumed <= |input|
  {
    Encoder(e.params, e.fed + input[..s.consumed], e.emitted + s.produced,
            |s.produced| == ROOM, finish, if finish then input[s.consumed..] else [], s.status == StreamEnd)
  }

  /** The calls zlib accepts: progress is possible, and after a Z_FINISH nothing but its left-over is offered. */
  predicate Callable(e: Encoder, input: seq<byte>, finish: bool) {
    && !e.ended
    && (e.finishing ==> finish && input == e.left)
    && (input != [] || finish || e.full)
  }

  /** bspatch undoes bsdiff, ignores what follows the patch, and delivers non-empty pieces. */
  ghost predicate PatchLaw(lib: Library) {
    && (forall a, b, rest {:trigger lib.bspatch(a, lib.bsdiff(a, b) + rest)} ::
          var r := lib.bspatch(a, lib.bsdiff(a, b) + rest);
          r.Some? && Flatten(r.value) == b)
    && (forall a, p, k ::
          lib.bspatch(a, p).Some? && 0 <= k < |lib.bspatch(a, p).value| ==>
            lib.bspatch(a, p).value[k] != [])
  }

  /** Inflation stops at the end of the stream and does not look past it. */
  ghost predicate InflateLaw(lib: Library) {
    forall x :: lib.inflate(x).Inflated? ==>
      lib.inflate(x).consumed <= |x| && lib.inflate(x[..lib.inflate(x).consumed]) == lib.inflate(x)
  }

  ghost predicate CallLaw(lib: Library, e: Encoder, input: seq<byte>, finish: bool)
    requires lib.reachable(e)
  {
    var s := lib.deflate(e, input, finish);
    && (Callable(e, input, finish) ==>
          && s.status != Error
          && s.consumed <= |input| && |s.produced| <= ROOM
          && lib.reachable(After(e, input, finish, s))
          && (s.status == Ok && |s.produced| < ROOM ==> s.consumed == |input| && !finish)
          && (s.status == StreamEnd ==>
                finish && s.consumed == |input| &&
                e.emitted + s.produced == lib.deflated(e.params, e.fed + input)))
    && (e.ended && input != [] ==> s.status == Error)
  }

  /** Whatever the cuts, a finished stream holds `deflated` of all its input. */
  ghost predicate DeflateLaw(lib: Library) {
    && (forall p :: lib.starts(p) ==> lib.reachable(Fresh(p)))
    && (forall e, input, finish | lib.reachable(e) :: CallLaw(lib, e, input, finish))
    && (forall e :: lib.reachable(e) ==> |e.emitted| <= lib.bound(e.params, |e.fed|))
    && (forall p, m, n :: m <= n ==> lib.bound(p, m) <= lib.bound(p, n))
  }

  ghost predicate Laws(lib: Library) {
    PatchLaw(lib) && InflateLaw(lib) && DeflateLaw(lib)
  }

  // ----- a library that obeys the laws, so that the theorems are not vacuous

  function Escape(b: seq<byte>): (p: seq<byte>)
    ensures |p| == 2 * |b| + 1
  {
    if b == [] then [0] else [1, b[0]] + Escape(b[1..])
  }

  function Unescape(p: seq<byte>): (r: Inflated)
    ensures r.Inflated? ==> r.consumed <= |p|
  {
    if p == [] then NotDeflate
    else if p[0] == 0 then Inflated([], 1)
    else if p[0] != 1 || |p| < 2 then NotDeflate
    else match Unescape(p[2..])
      case NotDeflate => NotDeflate
      case Inflated(data, n) => Inflated([p[1]] + data, n + 2)
  }

  lemma {:induction false} UnescapeEscape(b: seq<byte>, rest: seq<byte>)
    ensures Unescape(Escape(b) + rest) == Inflated(b, 2 * |b| + 1)
  {
    if b != [] {
      UnescapeEscape(b[1..], rest);
      assert (Escape(b) + rest)[2..] == Escape(b[1..]) + rest;
    }
  }

  lemma EscapeIsInjective(a: seq<byte>, b: seq<byte>)
    requires Escape(a) == Escape(b)
    ensures a == b
  {
    hide Escape, Unescape;
    UnescapeEscape(a, []);
    UnescapeEscape(b, []);
  }

  lemma {:induction false} UnescapeStops(p: seq<byte>)
    requires Unescape(p).Inflated?
    ensures Unescape(p[..Unescape(p).consumed]) == Unescape(p)
  {
    if p[0] != 0 {
      UnescapeStops(p[2..]);
      assert p[..Unescape(p).consumed][2..] == p[2..][..Unescape(p[2..]).consumed];
    }
  }

  /** All input is taken at once; the compressed form comes out at the end, one buffer at a time. */
  function EscapeStep(e: Encoder, input: seq<byte>, finish: bool): (s: Step) {
    if e.ended then Step(0, [], Error)
    else if !finish then Step(|input|, [], Ok)
    else
      var whole := Escape(e.fed + input);
      if |e.emitted| > |whole| then Step(0, [], Error)
      else
        var rest := whole[|e.emitted|..];
        if |rest| <= ROOM then Step(|input|, rest, StreamEnd) else Step(|input|, rest[..ROOM], Ok)
  }

  predicate EscapeReachable(e: Encoder) {
    e.left == [] && if e.finishing then e.emitted <= Escape(e.fed) else e.emitted == []
  }

  /** "Compression" puts a 1 before each byte and a 0 at the end; inflating undoes it. */
  function Escaping(): (lib: Library) {
    Library(
      (a: seq<byte>, b: seq<byte>) => Escape(b),
      (a: seq<byte>, p: seq<byte>) =>
        match Unescape(p)
        case NotDeflate => None
        case Inflated(b, _) => Some(if b == [] then [] else [b]),
      Unescape,
      p => true,
      EscapeStep,
      EscapeReachable,
      (p, n) => 2 * n + 1,
      (p, d) => Escape(d))
  }

  lemma EscapingCall(e: Encoder, input: seq<byte>, finish: bool)
    requires EscapeReachable(e)
    ensures CallLaw(Escaping(), e, input, finish)
  {
    hide Escape;
    var lib := Escaping();
    var s := lib.deflate(e, input, finish);
    assert s == EscapeStep(e, input, finish);
    assert input[..|input|] == input && input[|input|..] == [];
    assert e.fed + [] == e.fed;
  }

  lemma EscapingPatches()
    ensures PatchLaw(Escaping())
  {
    hide Unescape, Escape;
    var lib := Escaping();
    forall a: seq<byte>, b: seq<byte>, rest: seq<byte>
      ensures var r := lib.bspatch(a, lib.bsdiff(a, b) + rest); r.Some? && Flatten(r.value) == b
    {
      UnescapeEscape(b, rest);
    }
  }

  lemma EscapingInflates()
    ensures InflateLaw(Escaping())
  {
    hide Unescape;
    var lib := Escaping();
    forall x: seq<byte> | lib.inflate(x).Inflated?
      ensures lib.inflate(x).consumed <= |x| && lib.inflate(x[..lib.inflate(x).consumed]) == lib.inflate(x)
    {
      UnescapeStops(x);
    }
  }

  lemma EscapingDeflates()
    ensures DeflateLaw(Escaping())
  {
    hide Escape, CallLaw;
    var lib := Escaping();
    forall e, input: seq<byte>, finish | lib.reachable(e)
      ensures CallLaw(lib, e, input, finish)
    {
      EscapingCall(e, input, finish);
    }
  }

  lemma EscapingObeysTheLaws()
    ensures Laws(Escaping())
  {
    hide PatchLaw, InflateLaw, DeflateLaw;
    EscapingPatches();
    EscapingInflates();
    EscapingDeflates();
  }
}
