/**
 * The application settings (`settings_ui.py`): the defaults, loading a settings file
 * over them, and turning the settings into the recogniser's decoding options.
 * The environment variable `WHISPER_MODEL`, the file's parsed contents and whether
 * CUDA is available are parameters; the string-to-number parsers of `int()` and
 * `float()` are parameters as well.
 */
module Settings {
  import opened Wrappers
  import opened PyValues

  /** The model used when `WHISPER_MODEL` is not set. */
  const DefaultModel: string := "base.en"

  /** `default_settings()`, given the value of `WHISPER_MODEL` when it is set. */
  function DefaultSettings(envModel: Option<string>): (d: Dict)
    ensures d.Keys == {"device", "model_name", "preset", "language", "timestamps", "beam_size",
                       "temperature", "no_speech_threshold", "condition_on_previous_text"}
    ensures d["model_name"] == VStr(if envModel.Some? then envModel.value else DefaultModel)
  {
    map[
      "device" := VStr("auto"),
      "model_name" := VStr(envModel.GetOr(DefaultModel)),
      "preset" := VStr("balanced_cpu"),
      "language" := VStr("en"),
      "timestamps" := VBool(false),
      "beam_size" := VInt(1),
      "temperature" := VFloat(0.0),
      "no_speech_threshold" := VFloat(0.45),
      "condition_on_previous_text" := VBool(true)
    ]
  }

  /**
   * `load_settings(defaults, path)`: the defaults overlaid with the file's dictionary.
   * `parsed` is what `json.load` read, or `None` when the file is missing or cannot be
   * read or parsed. A top-level value that is not a dictionary is ignored.
   */
  function LoadSettings(defaults: Dict, parsed: Option<Value>): (settings: Dict)
    ensures settings.Keys >= defaults.Keys
    ensures !(parsed.Some? && parsed.value.VDict?) ==> settings == defaults
    ensures parsed.Some? && parsed.value.VDict? ==>
      && settings.Keys == defaults.Keys + parsed.value.entries.Keys
      && (forall key :: key in parsed.value.entries ==> settings[key] == parsed.value.entries[key])
      && (forall key :: key in defaults && key !in parsed.value.entries ==> settings[key] == defaults[key])
  {
    if parsed.Some? && parsed.value.VDict? then defaults + parsed.value.entries else defaults
  }

  /** The keyword arguments `whisper_options` passes to the recogniser. */
  datatype DecodeOptions = DecodeOptions(
    language: Value,
    task: string,
    temperature: real,
    beamSize: int,
    withoutTimestamps: bool,
    conditionOnPreviousText: bool,
    compressionRatioThreshold: real,
    logprobThreshold: real,
    noSpeechThreshold: real,
    fp16: bool)

  /** The beam size a named preset sets, and whether it forces half precision; `None`
      for any other preset value, which leaves the options as they are. */
  function Preset(v: Value): Option<(int, bool)> {
    if v == VStr("fast_cpu") then Some((1, false))
    else if v == VStr("balanced_cpu") then Some((2, false))
    else if v == VStr("balanced_gpu") then Some((3, true))
    else if v == VStr("accurate_gpu") then Some((5, true))
    else None
  }

  /** Half precision before the preset applies: on for the `gpu` device, CUDA's
      availability for `auto`, off otherwise. */
  function DeviceFp16(device: Value, cudaAvailable: bool): bool {
    if device == VStr("gpu") then true
    else if device == VStr("auto") then cudaAvailable
    else false
  }

  /**
   * `whisper_options(settings)`: the decoding options, or the exception `int()` or
   * `float()` raises on the beam size, the temperature or the no-speech threshold.
   * `cudaAvailable` is what `torch.cuda.is_available()` answers, false when `torch`
   * cannot be imported.
   */
  function WhisperOptions(settings: Dict, cudaAvailable: bool,
                          parseInt: string -> Option<int>, parseFloat: string -> Option<real>)
    : (r: Result<DecodeOptions, PyError>)
    ensures r.Success? <==>
      && ToInt(Get(settings, "beam_size", VInt(1)), parseInt).Success?
      && ToFloat(Get(settings, "temperature", VFloat(0.0)), parseFloat).Success?
      && ToFloat(Get(settings, "no_speech_threshold", VFloat(0.45)), parseFloat).Success?
    ensures r.Failure? ==>
      r.error == (if ToInt(Get(settings, "beam_size", VInt(1)), parseInt).Failure?
                  then ToInt(Get(settings, "beam_size", VInt(1)), parseInt).error
                  else if ToFloat(Get(settings, "temperature", VFloat(0.0)), parseFloat).Failure?
                  then ToFloat(Get(settings, "temperature", VFloat(0.0)), parseFloat).error
                  else ToFloat(Get(settings, "no_speech_threshold", VFloat(0.45)), parseFloat).error)
    ensures r.Success? ==>
      && r.value.task == "transcribe"
      && r.value.compressionRatioThreshold == 2.4
      && r.value.logprobThreshold == -1.0
      && (Get(settings, "language", VNone) == VStr("auto") ==> r.value.language == VNone)
      && (Get(settings, "language", VNone) != VStr("auto") ==> r.value.language == Get(settings, "language", VStr("en")))
      && r.value.withoutTimestamps == !Truthy(Get(settings, "timestamps", VBool(false)))
      && r.value.conditionOnPreviousText == Truthy(Get(settings, "condition_on_previous_text", VBool(true)))
      && r.value.noSpeechThreshold == ToFloat(Get(settings, "no_speech_threshold", VFloat(0.45)), parseFloat).value
    ensures r.Success? && Preset(Get(settings, "preset", VNone)).Some? ==>
      && r.value.beamSize == Preset(Get(settings, "preset", VNone)).value.0
      && r.value.temperature == 0.0
      && r.value.fp16 == (Preset(Get(settings, "preset", VNone)).value.1
                          || DeviceFp16(Get(settings, "device", VNone), cudaAvailable))
    ensures r.Success? && Preset(Get(settings, "preset", VNone)).None? ==>
      && r.value.beamSize == ToInt(Get(settings, "beam_size", VInt(1)), parseInt).value
      && r.value.temperature == ToFloat(Get(settings, "temperature", VFloat(0.0)), parseFloat).value
      && r.value.fp16 == DeviceFp16(Get(settings, "device", VNone), cudaAvailable)
  {
    var language := if Get(settings, "language", VNone) == VStr("auto") then VNone else Get(settings, "language", VStr("en"));
    var withoutTs := !Truthy(Get(settings, "timestamps", VBool(false)));
    match ToInt(Get(settings, "beam_size", VInt(1)), parseInt)
    case Failure(e) => Failure(e)
    case Success(beamSize) =>
      match ToFloat(Get(settings, "temperature", VFloat(0.0)), parseFloat)
      case Failure(e) => Failure(e)
      case Success(temperature) =>
        match ToFloat(Get(settings, "no_speech_threshold", VFloat(0.45)), parseFloat)
        case Failure(e) => Failure(e)
        case Success(noSpeech) =>
          var opts := DecodeOptions(language, "transcribe", temperature, beamSize, withoutTs,
                                    Truthy(Get(settings, "condition_on_previous_text", VBool(true))),
                                    2.4, -1.0, noSpeech, false);
          var opts := opts.(fp16 := DeviceFp16(Get(settings, "device", VNone), cudaAvailable));
          match Preset(Get(settings, "preset", VNone))
          case None => Success(opts)
          case Some((beam, forceFp16)) =>
            Success(if forceFp16 then opts.(beamSize := beam, temperature := 0.0, fp16 := true)
                    else opts.(beamSize := beam, temperature := 0.0))
  }

  /**
   * With the default settings the options always convert: English, no timestamps,
   * conditioning on the previous text, the `balanced_cpu` preset's beam of 2 at
   * temperature 0, the 0.45 no-speech threshold, and half precision exactly when CUDA
   * is available.
   */
  lemma DefaultOptions(envModel: Option<string>, cudaAvailable: bool,
                       parseInt: string -> Option<int>, parseFloat: string -> Option<real>)
    ensures WhisperOptions(DefaultSettings(envModel), cudaAvailable, parseInt, parseFloat)
      == Success(DecodeOptions(VStr("en"), "transcribe", 0.0, 2, true, true, 2.4, -1.0, 0.45, cudaAvailable))
  {
    var d := DefaultSettings(envModel);
    assert Get(d, "language", VNone) == VStr("en");
    assert Get(d, "preset", VNone) == VStr("balanced_cpu");
    assert Get(d, "device", VNone) == VStr("auto");
  }

  /**
   * A settings file that sets none of the keys the options read leaves the options at
   * their defaults, whatever else it holds.
   */
  lemma UnrelatedFileKeepsOptions(envModel: Option<string>, parsed: Option<Value>, cudaAvailable: bool,
                                  parseInt: string -> Option<int>, parseFloat: string -> Option<real>)
    requires parsed.Some? && parsed.value.VDict? ==>
      parsed.value.entries.Keys !! DefaultSettings(envModel).Keys - {"model_name"}
    ensures WhisperOptions(LoadSettings(DefaultSettings(envModel), parsed), cudaAvailable, parseInt, parseFloat)
      == WhisperOptions(DefaultSettings(envModel), cudaAvailable, parseInt, parseFloat)
  {
    var d := DefaultSettings(envModel);
    var s := LoadSettings(d, parsed);
    forall key | key in d.Keys - {"model_name"} ensures key in s && s[key] == d[key] {
    }
    assert Get(s, "language", VNone) == Get(d, "language", VNone);
    assert Get(s, "preset", VNone) == Get(d, "preset", VNone);
    assert Get(s, "device", VNone) == Get(d, "device", VNone);
    assert Get(s, "beam_size", VInt(1)) == Get(d, "beam_size", VInt(1));
    assert Get(s, "temperature", VFloat(0.0)) == Get(d, "temperature", VFloat(0.0));
    assert Get(s, "no_speech_threshold", VFloat(0.45)) == Get(d, "no_speech_threshold", VFloat(0.45));
    assert Get(s, "timestamps", VBool(false)) == Get(d, "timestamps", VBool(false));
    assert Get(s, "condition_on_previous_text", VBool(true)) == Get(d, "condition_on_previous_text", VBool(true));
  }
}
