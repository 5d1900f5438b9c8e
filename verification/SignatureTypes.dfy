/** Signature metadata of RFC 9421: covered components and signature parameters, and
    the rules a component identifier has to meet. */
module SignatureTypes {
  import opened Wrappers
  import opened SfvTypes

  /** A component parameter's value; Nil is the absent interface value. */
  datatype Value =
    | BooleanValue(flag: bool)
    | IntegerValue(number: int64)
    | StringValue(text: string)
    | TokenValue(name: string)
    | BytesValue(bytes: seq<Octet>)
    | Nil

  datatype ComponentParameter = ComponentParameter(key: string, value: Value)

  /** Unknown stands for the integers that name no component type. */
  datatype ComponentType = Field | Derived | Unknown(code: int)

  datatype Component = Component(name: string, kind: ComponentType, parameters: seq<ComponentParameter>)

  datatype SignatureParams = SignatureParams(
    created: Option<int64>,
    expires: Option<int64>,
    nonce: Option<string>,
    algorithm: Option<string>,
    keyId: Option<string>,
    tag: Option<string>)

  const NO_PARAMS := SignatureParams(None, None, None, None, None, None)

  datatype SignatureEntry = SignatureEntry(
    labelText: string,
    components: seq<Component>,
    params: SignatureParams,
    signature: seq<Octet>)

  /** The type the parser recovers from a name. */
  function KindOf(name: string): ComponentType {
    if |name| > 0 && name[0] == '@' then Derived else Field
  }

  predicate HasKey(ps: seq<ComponentParameter>, key: string) {
    exists i :: 0 <= i < |ps| && ps[i].key == key
  }

  const VALID_DERIVED := {
    "@method", "@target-uri", "@authority", "@scheme", "@request-target",
    "@path", "@query", "@query-param", "@status"
  }

  /** bs excludes sf and key, and key needs sf. */
  predicate ValidCombination(ps: seq<ComponentParameter>) {
    && !(HasKey(ps, "bs") && HasKey(ps, "sf"))
    && !(HasKey(ps, "bs") && HasKey(ps, "key"))
    && (HasKey(ps, "key") ==> HasKey(ps, "sf"))
  }

  predicate ValidComponent(c: Component) {
    && (c.kind == Derived ==>
          c.name in VALID_DERIVED && (c.name == "@query-param" ==> HasKey(c.parameters, "name")))
    && ValidCombination(c.parameters)
  }

  method ValidateParameterCombinations(c: Component) returns (ok: bool)
    ensures ok == ValidCombination(c.parameters)
  {
    var hasBs, hasSf, hasKey := false, false, false;
    for i := 0 to |c.parameters|
      invariant hasBs == HasKey(c.parameters[..i], "bs")
      invariant hasSf == HasKey(c.parameters[..i], "sf")
      invariant hasKey == HasKey(c.parameters[..i], "key")
    {
      var key := c.parameters[i].key;
      HasKeyStep(c.parameters, i, "bs");
      HasKeyStep(c.parameters, i, "sf");
      HasKeyStep(c.parameters, i, "key");
      if key == "bs" {
        hasBs := true;
      } else if key == "sf" {
        hasSf := true;
      } else if key == "key" {
        hasKey := true;
      }
    }
    assert c.parameters[..|c.parameters|] == c.parameters;
    if hasBs && hasSf {
      return false;
    }
    if hasBs && hasKey {
      return false;
    }
    if hasKey && !hasSf {
      return false;
    }
    return true;
  }

  lemma HasKeyStep(ps: seq<ComponentParameter>, i: nat, key: string)
    requires i < |ps|
    ensures HasKey(ps[..i + 1], key) <==> HasKey(ps[..i], key) || ps[i].key == key
  {
    if HasKey(ps[..i], key) {
      var j :| 0 <= j < i && ps[..i][j].key == key;
      assert ps[..i + 1][j].key == key;
    }
    if ps[i].key == key {
      assert ps[..i + 1][i].key == key;
    }
  }

  method ValidateDerivedComponentParameters(c: Component) returns (ok: bool)
    ensures ok == (c.name == "@query-param" ==> HasKey(c.parameters, "name"))
  {
    if c.name == "@query-param" {
      var hasName := false;
      for i := 0 to |c.parameters|
        invariant !hasName
        invariant forall j :: 0 <= j < i ==> c.parameters[j].key != "name"
      {
        if c.parameters[i].key == "name" {
          hasName := true;
          break;
        }
      }
      return hasName;
    }
    return true;
  }

  /** The reserved name @signature-params is no valid derived component either. */
  method ValidateComponentIdentifier(c: Component) returns (ok: bool)
    ensures ok == ValidComponent(c)
  {
    hide ValidCombination, HasKey;
    if c.kind == Derived {
      if c.name == "@signature-params" {
        assert |c.name| == 17;
        return false;
      }
      if c.name !in VALID_DERIVED {
        return false;
      }
      ok := ValidateDerivedComponentParameters(c);
      if !ok {
        return;
      }
    }
    ok := ValidateParameterCombinations(c);
  }
}
