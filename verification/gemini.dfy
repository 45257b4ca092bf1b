/** The generation client (`utils/gemini.py`): a configuration step that runs
    once per process, and a two-model policy that falls back from the primary
    model to the secondary one only after a rate-limit error. The SDK is a
    parameter: `sdkAccepts` says whether `genai.configure` accepts a key, and
    `service(model, prompt)` is the outcome of asking one model. */
module Gemini {
  import opened Wrappers

  const PrimaryModel: string := "gemini-2.5-flash-preview-05-20"
  const FallbackModel: string := "gemini-2.0-flash"
  const KeyPlaceholder: string := "YOUR_API_KEY_PLACEHOLDER"

  /** The block reason of a response's prompt feedback: its enum name and message. */
  datatype BlockReason = BlockReason(name: string, message: string)

  /** A generated response: its parts, its `.text` accessor (which can raise,
      hence a `Result`), and the block reason of its prompt feedback when one is set. */
  datatype Response = Response(parts: seq<string>, text: Result<string>, blockReason: Option<BlockReason>)

  /** What a caller of `generate_with_fallback` observes: the call raised, or
      it returned a response or `None`. */
  datatype Reply = Raised(error: string) | Returned(response: Option<Response>)

  /** The outcome of asking one model: a response, or one of the three
      exception classes the policy tells apart. */
  datatype Attempt =
    | Served(response: Response)
    | ResourceExhausted(message: string)
    | ApiError(message: string)
    | Unexpected(message: string)

  /** The module-level flags `gemini_configured` and `gemini_config_success`. */
  datatype ConfigState = ConfigState(configured: bool, success: bool)

  const Unconfigured: ConfigState := ConfigState(false, false)

  /** A key the client will try to configure with: present, non-empty, and not the placeholder. */
  predicate UsableKey(key: Option<string>) {
    key.Some? && key.value != [] && key.value != KeyPlaceholder
  }

  /** `_configure_gemini_if_needed`: the new flags and the returned success flag. */
  function ConfigureIfNeeded(st: ConfigState, key: Option<string>, sdkAccepts: string -> bool): (r: (ConfigState, bool))
    ensures r.0.configured
    ensures r.1 == r.0.success
    ensures st.configured ==> r.0 == st
    ensures !st.configured ==> (r.1 <==> UsableKey(key) && sdkAccepts(key.value))
  {
    if st.configured then (st, st.success)
    else if !UsableKey(key) then (ConfigState(true, false), false)
    else if sdkAccepts(key.value) then (ConfigState(true, true), true)
    else (ConfigState(true, false), false)
  }

  /** The success flags returned by successive configuration calls with `keys`. */
  function ConfigureEach(st: ConfigState, keys: seq<Option<string>>, sdkAccepts: string -> bool): (r: seq<bool>)
    ensures |r| == |keys|
    decreases |keys|
  {
    if keys == [] then []
    else
      var first := ConfigureIfNeeded(st, keys[0], sdkAccepts);
      [first.1] + ConfigureEach(first.0, keys[1..], sdkAccepts)
  }

  /** Once configured, every later call returns the cached flag, whatever key it is given. */
  lemma {:induction false} ConfiguredStateIsFinal(st: ConfigState, keys: seq<Option<string>>, sdkAccepts: string -> bool)
    requires st.configured
    ensures forall k :: 0 <= k < |keys| ==> ConfigureEach(st, keys, sdkAccepts)[k] == st.success
    decreases |keys|
  {
    if keys != [] {
      ConfiguredStateIsFinal(st, keys[1..], sdkAccepts);
    }
  }

  /** The flags of successive calls: the first call's flag, then those of
      the calls that follow it from the state it leaves. */
  lemma ConfigureEachFirst(st: ConfigState, keys: seq<Option<string>>, sdkAccepts: string -> bool)
    requires keys != []
    ensures ConfigureEach(st, keys, sdkAccepts)
      == [ConfigureIfNeeded(st, keys[0], sdkAccepts).1]
         + ConfigureEach(ConfigureIfNeeded(st, keys[0], sdkAccepts).0, keys[1..], sdkAccepts)
  {
  }

  /** The first call succeeds exactly with a usable key the SDK accepts. */
  lemma FirstCallDecides(key: Option<string>, sdkAccepts: string -> bool)
    ensures ConfigureIfNeeded(Unconfigured, key, sdkAccepts).1 <==> UsableKey(key) && sdkAccepts(key.value)
  {
    assert !Unconfigured.configured;
  }

  /** The first configuration call decides the answer of every later one. */
  lemma FirstConfigurationDecides(keys: seq<Option<string>>, sdkAccepts: string -> bool)
    requires keys != []
    ensures ConfigureEach(Unconfigured, keys, sdkAccepts)[0] <==> UsableKey(keys[0]) && sdkAccepts(keys[0].value)
    ensures forall k :: 0 <= k < |keys| ==>
      ConfigureEach(Unconfigured, keys, sdkAccepts)[k] == ConfigureEach(Unconfigured, keys, sdkAccepts)[0]
  {
    var first := ConfigureIfNeeded(Unconfigured, keys[0], sdkAccepts);
    var flags := ConfigureEach(Unconfigured, keys, sdkAccepts);
    var rest := ConfigureEach(first.0, keys[1..], sdkAccepts);
    ConfigureEachFirst(Unconfigured, keys, sdkAccepts);
    FirstCallDecides(keys[0], sdkAccepts);
    ConfiguredStateIsFinal(first.0, keys[1..], sdkAccepts);
    assert flags[0] == first.1 == first.0.success;
    forall k | 1 <= k < |keys|
      ensures flags[k] == flags[0]
    {
      assert flags[k] == rest[k - 1] == first.0.success;
    }
  }

  /** `generate_with_fallback`: configure if needed, then try the primary
      model and, only after a rate-limit error, the fallback model. `tried`
      lists the models asked, in order. */
  method GenerateWithFallback(
    st: ConfigState, prompt: string, key: Option<string>,
    sdkAccepts: string -> bool, service: (string, string) -> Attempt)
    returns (st': ConfigState, response: Option<Response>, tried: seq<string>)
    ensures st' == ConfigureIfNeeded(st, key, sdkAccepts).0
    ensures !st'.success ==> response.None? && tried == []
    ensures st'.success ==> 1 <= |tried| <= 2 && tried[0] == PrimaryModel
    ensures st'.success ==> (|tried| == 2 <==> service(PrimaryModel, prompt).ResourceExhausted?)
    ensures |tried| == 2 ==> tried[1] == FallbackModel
    ensures response.Some? <==>
      st'.success &&
      (|| service(PrimaryModel, prompt).Served?
       || (service(PrimaryModel, prompt).ResourceExhausted? && service(FallbackModel, prompt).Served?))
    ensures response.Some? ==> service(tried[|tried| - 1], prompt) == Served(response.value)
  {
    var ready;
    st', ready := ConfigureIfNeeded(st, key, sdkAccepts).0, ConfigureIfNeeded(st, key, sdkAccepts).1;
    response := None;
    tried := [];
    if !ready {
      return;
    }
    var models := [PrimaryModel, FallbackModel];
    var i := 0;
    while i < |models|
      invariant 0 <= i < |models|
      invariant tried == models[..i]
      invariant response.None?
      invariant forall k :: 0 <= k < i ==> service(models[k], prompt).ResourceExhausted?
    {
      tried := tried + [models[i]];
      var attempt := service(models[i], prompt);
      if attempt.Served? {
        response := Some(attempt.response);
        return;
      } else if attempt.ResourceExhausted? {
        if i < |models| - 1 {
          i := i + 1;
          continue;
        }
        break;
      } else {
        break;
      }
    }
  }
}
