/**
  src/module/system/request-module.js, the parts that are not network calls:
  header sanitising before a request, query strings, the token expiry time
  and the configured browser identity with its fallback.

  A plain object is a sequence of `name: value` properties in property
  order; header and parameter values are strings here.
 */
module Request {
  import opened Optional
  import opened JsString

  datatype Property = Property(name: string, value: string)

  /** `Object.getOwnPropertyNames(object)`, in property order. */
  function Names(props: seq<Property>): (names: seq<string>)
    ensures |names| == |props|
    ensures forall k :: 0 <= k < |props| ==> names[k] == props[k].name
  {
    seq(|props|, k requires 0 <= k < |props| => props[k].name)
  }

  /** `object[name]`: the value of the property called `name`, if there is one. */
  function Get(props: seq<Property>, name: string): (v: Option<string>)
    ensures v.None? <==> forall k :: 0 <= k < |props| ==> props[k].name != name
    ensures v.Some? ==> exists k :: 0 <= k < |props| && props[k] == Property(name, v.value)
    decreases |props|
  {
    if props == [] then None
    else if props[0].name == name then Some(props[0].value)
    else
      var v := Get(props[1..], name);
      assert forall k :: 1 <= k < |props| ==> props[k] == props[1..][k - 1];
      v
  }

  /** The properties whose name is not in `names`, in their order. */
  function Omit(props: seq<Property>, names: set<string>): (r: seq<Property>)
    ensures |r| <= |props|
    ensures forall k :: 0 <= k < |r| ==> r[k].name !in names
    decreases |props|
  {
    if props == [] then []
    else
      var rest := Omit(props[1..], names);
      if props[0].name in names then rest else [props[0]] + rest
  }

  /** `Omit` keeps exactly the properties whose name is not dropped. */
  lemma {:induction false} OmitMembers(props: seq<Property>, names: set<string>)
    ensures forall p :: p in Omit(props, names) <==> p in props && p.name !in names
    decreases |props|
  {
    if props != [] {
      OmitMembers(props[1..], names);
      assert forall p :: p in props <==> p == props[0] || p in props[1..];
    }
  }

  lemma {:induction false} OmitTwice(props: seq<Property>, a: set<string>, b: set<string>)
    ensures Omit(Omit(props, a), b) == Omit(props, a + b)
    decreases |props|
  {
    if props != [] {
      OmitTwice(props[1..], a, b);
    }
  }

  /** Two name sets that agree on every property's name drop the same properties. */
  lemma {:induction false} OmitAgree(props: seq<Property>, a: set<string>, b: set<string>)
    requires forall k :: 0 <= k < |props| ==> (props[k].name in a <==> props[k].name in b)
    ensures Omit(props, a) == Omit(props, b)
    decreases |props|
  {
    if props != [] {
      OmitAgree(props[1..], a, b);
    }
  }

  /** The names Chromium refuses to send. */
  const RestrictedHeaders: seq<string> := ["Content-Length", "Host", "Trailer", "Te", "Upgrade", "Cookie2", "Keep-Alive", "Transfer-Encoding"]

  /** The same names as a set: `restrictedHeaders.includes(name)` is `name in Restricted`. */
  const Restricted: set<string> := AsSet(RestrictedHeaders)

  /** The names of a list, as a set: `list.includes(name)` is `name in AsSet(list)`. */
  function AsSet(names: seq<string>): (r: set<string>)
    ensures forall n :: n in r <==> n in names
  {
    set n | n in names
  }

  /** The headers `clearHeaders` leaves: no restricted name, and no `Connection: upgrade`. */
  function Cleared(headers: seq<Property>): seq<Property>
  {
    var kept := Omit(headers, Restricted);
    if Get(kept, "Connection") == Some("upgrade") then Omit(kept, {"Connection"}) else kept
  }

  /** A plain object whose properties can be deleted in place. */
  class Headers {
    var props: seq<Property>

    constructor (props: seq<Property>)
      ensures this.props == props
    {
      this.props := props;
    }

    /** `delete object[name]` */
    method Delete(name: string)
      modifies this
      ensures props == Omit(old(props), {name})
    {
      props := Omit(props, {name});
    }
  }

  /**
    The loop of `clearHeaders`: for each name of the snapshot `headerNames`
    that the list `restricted` includes, `delete headers[name]`.
   */
  method DeleteListed(headers: Headers, headerNames: seq<string>, restricted: seq<string>)
    modifies headers
    requires headerNames == Names(headers.props)
    ensures headers.props == Omit(old(headers.props), AsSet(restricted))
  {
    ghost var original := headers.props;
    ghost var deleted: set<string> := {};
    OmitNothingLeft(original, {});
    for index := 0 to |headerNames|
      invariant headers.props == Omit(original, deleted)
      invariant forall n :: n in deleted ==> n in restricted
      invariant forall k :: 0 <= k < index && headerNames[k] in restricted ==> headerNames[k] in deleted
    {
      var element := headerNames[index];
      ListedStep(headerNames, restricted, deleted, index);
      if element in restricted {
        headers.Delete(element);
        OmitTwice(original, deleted, {element});
        deleted := deleted + {element};
      }
    }
    DeletedAll(original, headerNames, deleted, AsSet(restricted));
  }

  /** One more name of the snapshot: it is deleted exactly when the list includes it. */
  lemma ListedStep(names: seq<string>, restricted: seq<string>, deleted: set<string>, index: nat)
    requires index < |names|
    requires forall n :: n in deleted ==> n in restricted
    requires forall k :: 0 <= k < index && names[k] in restricted ==> names[k] in deleted
    ensures var next := if names[index] in restricted then deleted + {names[index]} else deleted;
      && (forall n :: n in next ==> n in restricted)
      && (forall k :: 0 <= k < index + 1 && names[k] in restricted ==> names[k] in next)
  {
  }

  /** Deleting, name by name, every listed name of the snapshot drops what dropping the whole list drops. */
  lemma DeletedAll(props: seq<Property>, names: seq<string>, deleted: set<string>, listed: set<string>)
    requires names == Names(props) && deleted <= listed
    requires forall k :: 0 <= k < |names| && names[k] in listed ==> names[k] in deleted
    ensures Omit(props, deleted) == Omit(props, listed)
  {
    forall k | 0 <= k < |props| ensures props[k].name in deleted <==> props[k].name in listed {
      assert props[k].name == names[k];
    }
    OmitAgree(props, deleted, listed);
  }

  /**
    `clearHeaders(headers)`: deletes every property with a restricted name,
    then `Connection` when its value is `'upgrade'`, and returns the same
    object.
   */
  method ClearHeaders(headers: Headers) returns (r: Headers)
    modifies headers
    ensures r == headers
    ensures headers.props == Cleared(old(headers.props))
  {
    var headerNames := Names(headers.props);
    DeleteListed(headers, headerNames, RestrictedHeaders);
    var connection := Get(headers.props, "Connection");
    if connection == Some("upgrade") {
      headers.Delete("Connection");
    }
    r := headers;
  }

  /** After `clearHeaders` no restricted header is left. */
  lemma ClearedRemovesRestricted(headers: seq<Property>, name: string)
    requires name in RestrictedHeaders
    ensures Get(Cleared(headers), name).None?
  {
    GetOmit(headers, Restricted, name);
    GetOmit(Omit(headers, Restricted), {"Connection"}, name);
  }

  /** `Connection` goes exactly when its value is `'upgrade'`; otherwise it keeps its value. */
  lemma ClearedConnection(headers: seq<Property>)
    ensures Get(headers, "Connection") == Some("upgrade") ==> Get(Cleared(headers), "Connection").None?
    ensures Get(headers, "Connection") != Some("upgrade") ==> Get(Cleared(headers), "Connection") == Get(headers, "Connection")
  {
    GetOmit(headers, Restricted, "Connection");
  }

  /** Every other header keeps its value. */
  lemma ClearedKeepsOthers(headers: seq<Property>, name: string)
    requires name !in RestrictedHeaders && name != "Connection"
    ensures Get(Cleared(headers), name) == Get(headers, name)
  {
    var kept := Omit(headers, Restricted);
    GetOmit(headers, Restricted, name);
    GetOmit(kept, {"Connection"}, name);
  }

  /** Clearing twice is clearing once. */
  lemma ClearedIdempotent(headers: seq<Property>)
    ensures Cleared(Cleared(headers)) == Cleared(headers)
  {
    var kept := Omit(headers, Restricted);
    var once := Cleared(headers);
    if Get(kept, "Connection") == Some("upgrade") {
      OmitTwice(headers, Restricted, {"Connection"});
      OmitTwice(headers, Restricted + {"Connection"}, Restricted);
      assert Restricted + {"Connection"} + Restricted == Restricted + {"Connection"};
      assert Get(once, "Connection").None?;
    } else {
      OmitTwice(headers, Restricted, Restricted);
      assert Restricted + Restricted == Restricted;
    }
    OmitNothingLeft(once, Restricted);
  }

  /** Dropping names that are already gone changes nothing. */
  lemma {:induction false} OmitNothingLeft(props: seq<Property>, names: set<string>)
    requires forall k :: 0 <= k < |props| ==> props[k].name !in names
    ensures Omit(props, names) == props
    decreases |props|
  {
    if props != [] {
      OmitNothingLeft(props[1..], names);
    }
  }

  /** Looking a name up after dropping others finds what it found before. */
  lemma {:induction false} GetOmit(props: seq<Property>, names: set<string>, name: string)
    ensures name !in names ==> Get(Omit(props, names), name) == Get(props, name)
    ensures name in names ==> Get(Omit(props, names), name).None?
    decreases |props|
  {
    if props != [] {
      GetOmit(props[1..], names, name);
    }
  }

  // ---------------------------------------------------------------------------
  // Query strings
  // ---------------------------------------------------------------------------

  /** The `name=value` strings of the properties, in order, without any encoding. */
  function Pairs(data: seq<Property>): (r: seq<string>)
    ensures |r| == |data|
    ensures forall k :: 0 <= k < |data| ==> r[k] == data[k].name + "=" + data[k].value
  {
    seq(|data|, k requires 0 <= k < |data| => data[k].name + "=" + data[k].value)
  }

  /** `toParameters(data)`: the `name=value` pairs joined by `'&'`; `{}` gives `''`. */
  method ToParameters(data: seq<Property>) returns (r: string)
    ensures r == Join(Pairs(data), "&")
    ensures data == [] <==> r == ""
  {
    var dataNames := Names(data);
    var parameters: seq<string> := [];
    for index := 0 to |dataNames|
      invariant parameters == Pairs(data[..index])
    {
      var dataName := dataNames[index];
      assert Get(data, dataName).Some?;
      parameters := parameters + [dataName + "=" + data[index].value];
    }
    assert data[..|data|] == data;
    r := Join(parameters, "&");
    if data != [] {
      JoinHoldsFirst(parameters, "&");
    }
  }

  lemma {:induction false} JoinHoldsFirst(pieces: seq<string>, sep: string)
    requires |pieces| >= 1
    ensures |Join(pieces, sep)| >= |pieces[0]|
  {
  }

  /**
    When no name or value holds `&`, splitting the query string on `&`
    gives back the pairs, one per property.
   */
  lemma ParametersSplit(data: seq<Property>)
    requires data != []
    requires forall k :: 0 <= k < |data| ==> '&' !in data[k].name && '&' !in data[k].value
    ensures Split(Join(Pairs(data), "&"), '&') == Pairs(data)
  {
    var pairs := Pairs(data);
    forall k | 0 <= k < |pairs| ensures '&' !in pairs[k] {
      assert pairs[k] == data[k].name + "=" + data[k].value;
    }
    SplitJoin(pairs, '&');
  }

  // ---------------------------------------------------------------------------
  // Expiry and the configured browser identity
  // ---------------------------------------------------------------------------

  /** Six hours, in milliseconds. */
  const SixHours: int := 6 * 60 * 60 * 1000

  /** `getExpiryDate()`: six hours after `now` (milliseconds since the epoch). */
  function ExpiryDate(now: int): (expiry: int)
    ensures expiry - now == SixHours && expiry - now == 21600000
  {
    now + 21600000
  }

  /** The `system` section of the configuration, each field possibly unset. */
  datatype SystemConfig = SystemConfig(scu: Option<string>, userAgent: Option<string>)

  /** The default configuration's `system` section. */
  datatype SystemDefaults = SystemDefaults(scu: string, userAgent: string)

  /** A configured string value counts only when it is truthy, that is set and not `''`. */
  function ConfiguredOr(value: Option<string>, fallback: string): (r: string)
    ensures value.Some? && value.value != "" ==> r == value.value
    ensures value.None? || value.value == "" ==> r == fallback
  {
    if value.Some? && value.value != "" then value.value else fallback
  }

  /** `getSCU()`: `config?.system?.scu` when truthy, else the default configuration's. */
  function GetSCU(config: Option<SystemConfig>, defaults: SystemDefaults): (scu: string)
    ensures config.Some? && config.value.scu.Some? && config.value.scu.value != "" ==> scu == config.value.scu.value
    ensures config.None? || config.value.scu.None? || config.value.scu.value == "" ==> scu == defaults.scu
  {
    ConfiguredOr(if config.Some? then config.value.scu else None, defaults.scu)
  }

  /** `getUserAgent()`: `config?.system?.userAgent` when truthy, else the default configuration's. */
  function GetUserAgent(config: Option<SystemConfig>, defaults: SystemDefaults): (userAgent: string)
    ensures config.Some? && config.value.userAgent.Some? && config.value.userAgent.value != "" ==> userAgent == config.value.userAgent.value
    ensures config.None? || config.value.userAgent.None? || config.value.userAgent.value == "" ==> userAgent == defaults.userAgent
  {
    ConfiguredOr(if config.Some? then config.value.userAgent else None, defaults.userAgent)
  }
}
