/**
 * The three settings of an `AnimateString` instance
 * (animate-string.js:11-32, 56-74): keyframes, duration and hover callback.
 * Each one takes the constructor's argument when that argument is truthy in
 * JavaScript, and the class's static default otherwise.
 */
module Config {

  datatype Option<T> = None | Some(value: T)

  /** A keyframe in the format that `Element.animate` takes: property values and an optional offset. */
  datatype Keyframe = Keyframe(properties: map<string, string>, offset: Option<real>)

  /** A hover callback: the static no-op, or a function the caller supplied, known by its identity. */
  datatype Callback = NoOp | Supplied(id: nat)

  /** The initial value of `AnimateString.animationKeyframes`: tilt and tint half-way, then back to rest. */
  const DefaultKeyframes: seq<Keyframe> := [
    Keyframe(map["transform" := "rotate(-7deg) scale(1.02)", "color" := "tomato"], Some(0.5)),
    Keyframe(map["transform" := "rotate(0deg) scale(1)", "color" := "unset"], Some(1.0))
  ]

  /** The initial value of `AnimateString.animationDuration`, in milliseconds. */
  const DefaultDuration: int := 600

  /** The initial value of `AnimateString.onMouseover`. */
  const DefaultCallback: Callback := NoOp

  /**
   * The public static fields `AnimateString.animationKeyframes`,
   * `AnimateString.animationDuration` and `AnimateString.onMouseover` as
   * they stand when a constructor runs. Any script may assign them, and the
   * constructor reads them afresh each time.
   */
  datatype Statics = Statics(animationKeyframes: seq<Keyframe>, animationDuration: int, onMouseover: Callback)

  /** The static fields before any script assigns them. */
  const InitialStatics: Statics := Statics(DefaultKeyframes, DefaultDuration, DefaultCallback)

  /**
   * JavaScript truthiness of each argument: `None` stands for `null` or an
   * omitted argument. Every array is truthy, the empty one included, and so
   * is every function; a number is truthy unless it is zero.
   */
  predicate KeyframesTruthy(arg: Option<seq<Keyframe>>)
  {
    arg.Some?
  }

  predicate DurationTruthy(arg: Option<int>)
  {
    arg.Some? && arg.value != 0
  }

  predicate CallbackTruthy(arg: Option<Callback>)
  {
    arg.Some?
  }

  function ResolveKeyframes(arg: Option<seq<Keyframe>>, statics: Statics): (r: seq<Keyframe>)
    ensures KeyframesTruthy(arg) ==> r == arg.value
    ensures !KeyframesTruthy(arg) ==> r == statics.animationKeyframes
  {
    if KeyframesTruthy(arg) then arg.value else statics.animationKeyframes
  }

  /** The resolved duration is zero only when the static duration has been set to zero. */
  function ResolveDuration(arg: Option<int>, statics: Statics): (r: int)
    ensures statics.animationDuration != 0 ==> r != 0
    ensures DurationTruthy(arg) ==> r == arg.value
    ensures !DurationTruthy(arg) ==> r == statics.animationDuration
  {
    if DurationTruthy(arg) then arg.value else statics.animationDuration
  }

  function ResolveCallback(arg: Option<Callback>, statics: Statics): (r: Callback)
    ensures CallbackTruthy(arg) ==> r == arg.value
    ensures !CallbackTruthy(arg) ==> r == statics.onMouseover
  {
    if CallbackTruthy(arg) then arg.value else statics.onMouseover
  }

  /** The resolved settings of one instance. */
  datatype Settings = Settings(keyframes: seq<Keyframe>, duration: int, onMouseover: Callback)

  function Resolve(keyframes: Option<seq<Keyframe>>, duration: Option<int>, onMouseover: Option<Callback>,
                   statics: Statics): Settings
  {
    Settings(ResolveKeyframes(keyframes, statics), ResolveDuration(duration, statics),
             ResolveCallback(onMouseover, statics))
  }

  /**
   * Each setting falls back on its own: a field depends on its own argument
   * and its own static field only.
   */
  lemma ResolveIsPerSetting(k1: Option<seq<Keyframe>>, d1: Option<int>, c1: Option<Callback>, s1: Statics,
                            k2: Option<seq<Keyframe>>, d2: Option<int>, c2: Option<Callback>, s2: Statics)
    ensures k1 == k2 && s1.animationKeyframes == s2.animationKeyframes ==>
      Resolve(k1, d1, c1, s1).keyframes == Resolve(k2, d2, c2, s2).keyframes
    ensures d1 == d2 && s1.animationDuration == s2.animationDuration ==>
      Resolve(k1, d1, c1, s1).duration == Resolve(k2, d2, c2, s2).duration
    ensures c1 == c2 && s1.onMouseover == s2.onMouseover ==>
      Resolve(k1, d1, c1, s1).onMouseover == Resolve(k2, d2, c2, s2).onMouseover
  {
  }

  /** With no arguments, an instance takes the static fields as they stand. */
  lemma NoArgumentsTakeStatics(statics: Statics)
    ensures Resolve(None, None, None, statics)
      == Settings(statics.animationKeyframes, statics.animationDuration, statics.onMouseover)
  {
  }

  /** With no arguments and untouched statics: the two-keyframe default, 600 ms and the no-op. */
  lemma NoOverrides()
    ensures Resolve(None, None, None, InitialStatics) == Settings(DefaultKeyframes, 600, NoOp)
    ensures |Resolve(None, None, None, InitialStatics).keyframes| == 2
  {
  }

  /**
   * The duration is the static one exactly when the argument is missing,
   * zero, or equal to the static duration.
   */
  lemma DurationIsStaticIff(arg: Option<int>, statics: Statics)
    ensures ResolveDuration(arg, statics) == statics.animationDuration
      <==> (arg == None || arg == Some(0) || arg == Some(statics.animationDuration))
  {
    if arg.Some? && arg.value != 0 {
      assert ResolveDuration(arg, statics) == arg.value;
    }
  }

  /** The keyframes are the static ones exactly when none are given or the static array itself is given. */
  lemma KeyframesIsStaticIff(arg: Option<seq<Keyframe>>, statics: Statics)
    ensures ResolveKeyframes(arg, statics) == statics.animationKeyframes
      <==> (arg == None || arg == Some(statics.animationKeyframes))
  {
  }

  /** The callback is the static one exactly when none is given or the static callback itself is given. */
  lemma CallbackIsStaticIff(arg: Option<Callback>, statics: Statics)
    ensures ResolveCallback(arg, statics) == statics.onMouseover
      <==> (arg == None || arg == Some(statics.onMouseover))
  {
  }

  /** An empty keyframes array is truthy, so it is kept rather than replaced by the static one. */
  lemma EmptyKeyframesKept(statics: Statics)
    ensures ResolveKeyframes(Some([]), statics) == []
  {
  }
}
