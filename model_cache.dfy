/**
 * The prompt-cache layer: one reusable model handle per agent name, kept in a
 * process-wide map in insertion order, plus the lazily created provider client
 * and the two gateway calls that go through it.
 */
module ModelCache {
  import opened Wrappers
  import opened AgentTypes

  /** The model every cached handle is configured with. */
  const CachedModelName: string := "gemini-2.0-flash"

  /** The two places the provider key may come from; an empty string is an unset variable. */
  datatype Env = Env(importMetaKey: string, processKey: string)

  /** The provider client, bound to the key it was created with. */
  datatype Client = Client(apiKey: string)

  /** A configured model handle; `token` stands for the identity of the created object. */
  datatype Handle = Handle(token: nat, model: string, systemInstruction: string, apiKey: string)

  /** Token counters as the provider reports them; any of them may be missing. */
  datatype UsageMetadata = UsageMetadata(
    promptTokenCount: Option<int>, candidatesTokenCount: Option<int>, cachedContentTokenCount: Option<int>)

  datatype ModelResponse = ModelResponse(text: string, meta: Option<UsageMetadata>)

  /** What the provider did with one `generateContent` call. */
  datatype Call = Answered(response: ModelResponse) | CallFailed(reason: string)

  /** The provider: what it does with the user prompt of a `generateContent` call. */
  type Provider = string -> Call

  datatype Generated<T> = Generated(result: T, usage: Usage)
  datatype GeneratedText = GeneratedText(text: string, usage: Usage)

  /**
   * The key lookup: the first non-empty source, else the empty key. A missing
   * key is reported (`warned`) but is not an error.
   */
  function ApiKey(env: Env): (r: (string, bool))
    ensures r.1 <==> r.0 == ""
    ensures r.0 == "" <==> env.importMetaKey == "" && env.processKey == ""
    ensures r.0 != "" ==> r.0 == env.importMetaKey || r.0 == env.processKey
    ensures env.importMetaKey != "" ==> r.0 == env.importMetaKey
  {
    var key := if env.importMetaKey != "" then env.importMetaKey
               else if env.processKey != "" then env.processKey
               else "";
    (key, key == "")
  }

  /** The `|| 0` counter: the reported value, or 0 when it is missing. */
  function Counter(c: Option<int>): int {
    c.GetOr(0)
  }

  /** The usage record of a response: each counter as reported, zero-filled when absent. */
  function ZeroFilled(meta: Option<UsageMetadata>): (u: Usage)
    ensures meta.None? ==> u == Usage(0, 0, 0)
    ensures meta.Some? ==>
      (meta.value.promptTokenCount == Some(u.tokensIn) || (meta.value.promptTokenCount.None? && u.tokensIn == 0)) &&
      (meta.value.candidatesTokenCount == Some(u.tokensOut) || (meta.value.candidatesTokenCount.None? && u.tokensOut == 0)) &&
      (meta.value.cachedContentTokenCount == Some(u.cachedTokens) || (meta.value.cachedContentTokenCount.None? && u.cachedTokens == 0))
  {
    match meta
    case None => Usage(0, 0, 0)
    case Some(m) => Usage(Counter(m.promptTokenCount), Counter(m.candidatesTokenCount), Counter(m.cachedContentTokenCount))
  }

  /** `names` without `n`, order kept. */
  function Without(names: seq<string>, n: string): (r: seq<string>)
    ensures forall m :: m in r <==> m in names && m != n
  {
    if names == [] then []
    else if names[0] == n then Without(names[1..], n)
    else [names[0]] + Without(names[1..], n)
  }

  predicate Distinct(names: seq<string>) {
    forall i, j :: 0 <= i < j < |names| ==> names[i] != names[j]
  }

  lemma {:induction false} WithoutDistinct(names: seq<string>, n: string)
    requires Distinct(names)
    ensures Distinct(Without(names, n))
  {
    if names != [] {
      WithoutDistinct(names[1..], n);
      assert names[0] !in names[1..];
    }
  }

  class ModelCache {
    /** The map's keys in insertion order, as `Array.from(map.keys())` lists them. */
    var names: seq<string>
    var handles: map<string, Handle>
    /** The lazily created provider client; never reset once created. */
    var client: Option<Client>

    ghost predicate Valid()
      reads this
    {
      (forall n :: n in handles <==> n in names) && Distinct(names)
    }

    constructor ()
      ensures Valid() && names == [] && handles == map[] && client == None
    {
      names, handles, client := [], map[], None;
    }

    /**
     * Returns the handle stored under `name`, whatever instruction it was made
     * with; otherwise creates one for `instruction` (creating the client first
     * if there is none) and stores it.
     */
    method GetOrCreate(name: string, instruction: string, env: Env, token: nat) returns (h: Handle)
      requires Valid()
      modifies this
      ensures Valid()
      ensures name in handles && h == handles[name]
      ensures name in old(handles) ==>
        h == old(handles)[name] && handles == old(handles) && names == old(names) && client == old(client)
      ensures name !in old(handles) ==>
        client.Some? && h == Handle(token, CachedModelName, instruction, client.value.apiKey) &&
        handles == old(handles)[name := h] && names == old(names) + [name]
      ensures old(client).Some? ==> client == old(client)
      ensures old(client).None? && client.Some? ==> client.value.apiKey == ApiKey(env).0
    {
      if name in handles {
        h := handles[name];
        return;
      }
      if client.None? {
        client := Some(Client(ApiKey(env).0));
      }
      h := Handle(token, CachedModelName, instruction, client.value.apiKey);
      handles := handles[name := h];
      names := names + [name];
    }

    /** Drops the handle stored under `name`; every other entry stays as it was. */
    method Clear(name: string)
      requires Valid()
      modifies this
      ensures Valid()
      ensures handles == old(handles) - {name} && names == Without(old(names), name) && client == old(client)
    {
      WithoutDistinct(names, name);
      handles := handles - {name};
      names := Without(names, name);
    }

    /** Drops every handle; the client is kept. */
    method ClearAll()
      requires Valid()
      modifies this
      ensures Valid()
      ensures handles == map[] && names == [] && client == old(client)
    {
      handles, names := map[], [];
    }

    /** The names that currently have a handle, in the order they were created. */
    method List() returns (r: seq<string>)
      requires Valid()
      ensures r == names && Distinct(r)
      ensures forall n :: n in r <==> n in handles
    {
      r := names;
    }

    /**
     * One structured call: get or create the handle, send the prompt, and
     * decode the provider's answer to that prompt. A provider failure or
     * undecodable text is an error; usage is zero-filled.
     */
    method GenerateJson<T>(name: string, instruction: string, userPrompt: string, env: Env, token: nat,
                           provider: Provider, decode: string -> Option<T>) returns (r: Result<Generated<T>>)
      requires Valid()
      modifies this
      ensures Valid() && name in handles
      ensures name in old(handles) ==> handles == old(handles) && names == old(names)
      ensures name !in old(handles) ==> names == old(names) + [name] && handles.Keys == old(handles).Keys + {name}
      ensures var call := provider(userPrompt);
        (call.CallFailed? ==> r == Failure(call.reason)) &&
        (call.Answered? && decode(call.response.text).None? ==> r.Failure?) &&
        (call.Answered? && decode(call.response.text).Some? ==>
          r == Success(Generated(decode(call.response.text).value, ZeroFilled(call.response.meta))))
    {
      var model := GetOrCreate(name, instruction, env, token);
      match provider(userPrompt)
      case CallFailed(reason) =>
        r := Failure(reason);
      case Answered(response) =>
        var usage := ZeroFilled(response.meta);
        match decode(response.text)
        case None =>
          r := Failure("response text is not valid JSON");
        case Some(v) =>
          r := Success(Generated(v, usage));
    }

    /** One plain-text call: as `GenerateJson` but the text is returned undecoded. */
    method GenerateText(name: string, instruction: string, userPrompt: string, env: Env, token: nat,
                        provider: Provider) returns (r: Result<GeneratedText>)
      requires Valid()
      modifies this
      ensures Valid() && name in handles
      ensures name in old(handles) ==> handles == old(handles) && names == old(names)
      ensures var call := provider(userPrompt);
        (call.CallFailed? ==> r == Failure(call.reason)) &&
        (call.Answered? ==> r == Success(GeneratedText(call.response.text, ZeroFilled(call.response.meta))))
    {
      var model := GetOrCreate(name, instruction, env, token);
      match provider(userPrompt)
      case CallFailed(reason) =>
        r := Failure(reason);
      case Answered(response) =>
        r := Success(GeneratedText(response.text, ZeroFilled(response.meta)));
    }
  }
}
