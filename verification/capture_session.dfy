/**
 `ns::try_catch`: runs a call that may raise an Objective-C exception and
 turns a raised exception into `Err`. The call itself is foreign, so what it
 does is given as an `Outcome`.
 */
module ObjcException {
  import opened Runtime

  /** What a call that may throw did: returned `value`, or raised the
      `NSException` object `exception`. */
  datatype Outcome<T> = Returned(value: T) | Raised(exception: Handle)

  /** `ns::try_catch`: `Ok` of the returned value, or `Err` of the exception
      raised (an `ns::ExResult` when the call returns nothing). */
  function TryCatch<T>(call: Outcome<T>): (r: Result<T, Handle>)
    ensures r.Ok? <==> call.Returned?
    ensures call.Returned? ==> r.value == call.value
    ensures call.Raised? ==> r.error == call.exception
  {
    match call
    case Returned(v) => Ok(v)
    case Raised(e) => Err(e)
  }

  /** A helper with no counterpart in the bindings: the call a result
      reports, an `Ok` returned, an `Err` raised. It inverts `TryCatch`, which
      is what `TryCatchRoundTrip` states. */
  function Rethrow<T>(r: Result<T, Handle>): (call: Outcome<T>)
    ensures call.Returned? <==> r.Ok?
  {
    match r
    case Ok(v) => Returned(v)
    case Err(e) => Raised(e)
  }

  /** Catching loses nothing: the outcome of the call can be read back from
      the result, and every result is the image of exactly one outcome. */
  lemma TryCatchRoundTrip<T>(call: Outcome<T>, r: Result<T, Handle>)
    ensures Rethrow(TryCatch(call)) == call
    ensures TryCatch(Rethrow(r)) == r
  {
  }
}

/**
 `av::CaptureSession`, `av::CaptureMultiCamSession` and
 `av::CaptureConnection`: the few members with logic of their own.

 A receiver is modelled by the messages sent to it, in order; what
 AVFoundation does with them is not visible.
 */
module CaptureSession {
  import opened Runtime
  import opened ObjcException

  /** The messages this model distinguishes; `Other` stands for any other
      message a configuration body may send. */
  datatype Msg =
    | BeginConfiguration                 // -beginConfiguration
    | CommitConfiguration                // -commitConfiguration
    | SetSessionPreset(preset: Handle)   // -setSessionPreset:
    | AddControl(control: Handle)        // -addControl:
    | SetVideoRotationAngle(angle: real) // -setVideoRotationAngle:
    | Other(selector: string)

  /** An `AVCaptureSession` and the messages it has received. */
  datatype Session = Session(id: Handle, log: seq<Msg>)

  /** An `AVCaptureConnection` and the messages it has received. */
  datatype Connection = Connection(id: Handle, log: seq<Msg>)

  function Send(s: Session, m: Msg): (s': Session)
    ensures s'.id == s.id && s'.log == s.log + [m]
  {
    s.(log := s.log + [m])
  }

  /** `Session::begin_cfg`. */
  function BeginCfg(s: Session): (s': Session)
    ensures s'.id == s.id && s'.log == s.log + [BeginConfiguration]
  {
    Send(s, BeginConfiguration)
  }

  /** `Session::commit_cfg`. */
  function CommitCfg(s: Session): (s': Session)
    ensures s'.id == s.id && s'.log == s.log + [CommitConfiguration]
  {
    Send(s, CommitConfiguration)
  }

  // ------------------------------------------------ configuration nesting

  /** How a message changes the configuration nesting depth. */
  function Step(m: Msg): int {
    match m
    case BeginConfiguration => 1
    case CommitConfiguration => -1
    case _ => 0
  }

  /** Open configurations after the messages `log`: begins minus commits. */
  function Depth(log: seq<Msg>): int
    decreases |log|
  {
    if log == [] then 0 else Depth(log[..|log| - 1]) + Step(log[|log| - 1])
  }

  /** Every commit closes an earlier begin, and every begin is committed. */
  predicate Balanced(log: seq<Msg>) {
    && Depth(log) == 0
    && forall i :: 0 <= i <= |log| ==> Depth(log[..i]) >= 0
  }

  /** The depth after two runs of messages is the sum of their depths. */
  lemma {:induction false} DepthAppend(a: seq<Msg>, b: seq<Msg>)
    ensures Depth(a + b) == Depth(a) + Depth(b)
    decreases |b|
  {
    if b != [] {
      var b' := b[..|b| - 1];
      assert (a + b)[..|a + b| - 1] == a + b';
      assert (a + b)[|a + b| - 1] == b[|b| - 1];
      assert Depth(a + b) == Depth(a + b') + Step(b[|b| - 1]);
      DepthAppend(a, b');
    } else {
      assert a + b == a;
    }
  }

  /** Every prefix of `pre + [begin] + body + [commit]` that ends inside the
      body is one level deeper than the matching prefix of the body alone. */
  lemma DepthInsideBody(pre: seq<Msg>, body: seq<Msg>, j: nat)
    requires j <= |body|
    ensures Depth(pre + [BeginConfiguration] + body[..j]) == Depth(pre) + 1 + Depth(body[..j])
  {
    DepthAppend(pre + [BeginConfiguration], body[..j]);
    DepthAppend(pre, [BeginConfiguration]);
    assert [BeginConfiguration][..0] == [];
  }

  /** Wrapping a balanced body in a begin and a commit, after a balanced
      prefix, stays balanced. */
  lemma BalancedWrap(pre: seq<Msg>, body: seq<Msg>)
    requires Balanced(pre) && Balanced(body)
    ensures Balanced(pre + [BeginConfiguration] + body + [CommitConfiguration])
  {
    var log := pre + [BeginConfiguration] + body + [CommitConfiguration];
    var n := |pre|;
    DepthAppend(pre + [BeginConfiguration] + body, [CommitConfiguration]);
    DepthInsideBody(pre, body, |body|);
    assert pre[..n] == pre && body[..|body|] == body;
    assert [CommitConfiguration][..0] == [];
    assert Depth(log) == 0;
    forall i | 0 <= i <= |log|
      ensures Depth(log[..i]) >= 0
    {
      if i <= n {
        assert log[..i] == pre[..i];
      } else if i <= n + 1 + |body| {
        assert log[..i] == pre + [BeginConfiguration] + body[..i - n - 1];
        DepthInsideBody(pre, body, i - n - 1);
      } else {
        assert log[..i] == log;
      }
    }
  }

  /** `Session::configure`: begins a configuration, lets the body send its
      messages to the session, then commits. The body runs once, on the
      session as it is right after the begin, and sees one more open
      configuration than the caller had. */
  function Configure(s: Session, config: Session -> seq<Msg>): (s': Session)
    ensures s'.id == s.id
    ensures |s'.log| == |s.log| + |config(BeginCfg(s))| + 2
    ensures s'.log[..|s.log| + 1] == s.log + [BeginConfiguration]
    ensures s'.log[|s.log| + 1..|s'.log| - 1] == config(BeginCfg(s))
    ensures s'.log[|s'.log| - 1] == CommitConfiguration
    ensures multiset(s'.log)[BeginConfiguration] ==
      multiset(s.log)[BeginConfiguration] + 1 + multiset(config(BeginCfg(s)))[BeginConfiguration]
    ensures multiset(s'.log)[CommitConfiguration] ==
      multiset(s.log)[CommitConfiguration] + 1 + multiset(config(BeginCfg(s)))[CommitConfiguration]
  {
    var inside := BeginCfg(s);
    var body := config(inside);
    var s' := CommitCfg(inside.(log := inside.log + body));
    assert s'.log == s.log + [BeginConfiguration] + body + [CommitConfiguration];
    assert s'.log[|s.log| + 1..|s'.log| - 1] == body;
    assert multiset(s'.log) == multiset(s.log) + multiset{BeginConfiguration} + multiset(body) + multiset{CommitConfiguration};
    s'
  }

  /** A configuration whose body is balanced leaves a balanced session
      balanced: `configure` never leaves a configuration open, and never
      commits one it did not begin. */
  lemma ConfigureKeepsBalanced(s: Session, config: Session -> seq<Msg>)
    requires Balanced(s.log) && Balanced(config(BeginCfg(s)))
    ensures Balanced(Configure(s, config).log)
  {
    var body := config(BeginCfg(s));
    var s' := Configure(s, config);
    assert s'.log == s'.log[..|s.log| + 1] + s'.log[|s.log| + 1..|s'.log| - 1] + [s'.log[|s'.log| - 1]];
    BalancedWrap(s.log, body);
  }

  // ------------------------------------------------ guarded setters

  /** `Session::set_session_preset`: sends `-setSessionPreset:`; `Ok` when the
      setter raised nothing, `Err` of the raised exception otherwise. */
  function SetSessionPresetGuarded(s: Session, preset: Handle, call: Outcome<()>): (r: (Session, Result<(), Handle>))
    ensures r.0 == Send(s, SetSessionPreset(preset))
    ensures r.1.Ok? <==> call.Returned?
    ensures call.Raised? ==> r.1 == Err(call.exception)
  {
    (Send(s, SetSessionPreset(preset)), TryCatch(call))
  }

  /** `Session::add_control`: sends `-addControl:` under the same guard. */
  function AddControlGuarded(s: Session, control: Handle, call: Outcome<()>): (r: (Session, Result<(), Handle>))
    ensures r.0 == Send(s, AddControl(control))
    ensures r.1.Ok? <==> call.Returned?
    ensures call.Raised? ==> r.1 == Err(call.exception)
  {
    (Send(s, AddControl(control)), TryCatch(call))
  }

  /** `Connection::set_video_rotation_angle`: sends `-setVideoRotationAngle:`
      with the angle unchanged, under the same guard. */
  function SetVideoRotationAngleGuarded(c: Connection, angle: real, call: Outcome<()>): (r: (Connection, Result<(), Handle>))
    ensures r.0.id == c.id && r.0.log == c.log + [SetVideoRotationAngle(angle)]
    ensures r.1.Ok? <==> call.Returned?
    ensures call.Raised? ==> r.1 == Err(call.exception)
  {
    (c.(log := c.log + [SetVideoRotationAngle(angle)]), TryCatch(call))
  }

  /** Each guarded setter sends its message exactly once whatever happens, and
      the exception it reports is exactly the one raised: reporting the
      result again as an outcome gives back the call. */
  lemma GuardedSettersReportTheCall(s: Session, c: Connection, preset: Handle, control: Handle, angle: real, call: Outcome<()>)
    ensures Rethrow(SetSessionPresetGuarded(s, preset, call).1) == call
    ensures Rethrow(AddControlGuarded(s, control, call).1) == call
    ensures Rethrow(SetVideoRotationAngleGuarded(c, angle, call).1) == call
    ensures multiset(SetSessionPresetGuarded(s, preset, call).0.log)[SetSessionPreset(preset)] ==
      multiset(s.log)[SetSessionPreset(preset)] + 1
  {
  }

  /** A guarded setter inside `configure` is sent between the begin and the
      commit, whether or not it raised. */
  lemma SetterInsideConfigure(s: Session, preset: Handle, call: Outcome<()>)
    ensures var s' := Configure(s, (t: Session) => SetSessionPresetGuarded(t, preset, call).0.log[|t.log|..]);
      s'.log == s.log + [BeginConfiguration, SetSessionPreset(preset), CommitConfiguration]
  {
    var inside := BeginCfg(s);
    assert SetSessionPresetGuarded(inside, preset, call).0.log[|inside.log|..] == [SetSessionPreset(preset)];
  }

  // ------------------------------------------------ multi-camera support

  /** The operating system the bindings are built for. */
  datatype TargetOs = MacOs | IOs | TvOs | VisionOs | WatchOs

  /** `MultiCamSession::is_multicam_supported`: always false on macOS;
      elsewhere the class property `isMultiCamSupported`, whose value
      `classAnswer` comes from AVFoundation. */
  function IsMulticamSupported(target: TargetOs, classAnswer: bool): (r: bool)
    ensures target == MacOs ==> !r
    ensures target != MacOs ==> r == classAnswer
  {
    if target == MacOs then false else classAnswer
  }

  /** On macOS the answer does not depend on the framework at all. */
  lemma MulticamMacOsIgnoresFramework(a: bool, b: bool)
    ensures IsMulticamSupported(MacOs, a) == IsMulticamSupported(MacOs, b) == false
  {
  }
}
