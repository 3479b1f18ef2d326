/** An already-parsed JSON document, standing for `System.Text.Json`'s
    `JsonDocument`/`JsonElement` as the bridge reads them, and the envelope values
    the controllers serialize. Only numbers written as integer literals are
    distinguished; a literal with a fraction or an exponent is `Fractional`. */
module JsonDoc {
  import opened Wrappers

  datatype Number = Integer(value: int) | Fractional

  datatype Json =
    | Null
    | Bool(b: bool)
    | Num(n: Number)
    | Str(s: string)
    | Arr(items: seq<Json>)
    | Obj(props: seq<(string, Json)>)

  const MinInt32: int := -0x8000_0000
  const MaxInt32: int := 0x7FFF_FFFF

  /** `JsonElement.TryGetProperty` on an object's members: an ordinal,
      case-sensitive match, and the last definition wins when a name repeats. */
  function Property(props: seq<(string, Json)>, name: string): (r: Option<Json>)
    ensures r.None? <==> forall i :: 0 <= i < |props| ==> props[i].0 != name
    ensures r.Some? ==> exists i :: 0 <= i < |props| && props[i] == (name, r.value)
                                   && forall j :: i < j < |props| ==> props[j].0 != name
    decreases |props|
  {
    if |props| == 0 then None
    else if props[|props| - 1].0 == name then Some(props[|props| - 1].1)
    else
      var r := Property(props[..|props| - 1], name);
      assert forall i :: 0 <= i < |props| - 1 ==> props[..|props| - 1][i] == props[i];
      r
  }

  /** `JsonElement.GetInt32`: `None` where it throws, that is for a value that
      is not a number or a number that is not an integer literal in the 32-bit range. */
  function GetInt32(j: Json): (r: Option<int>)
    ensures r.Some? <==> j.Num? && j.n.Integer? && MinInt32 <= j.n.value <= MaxInt32
    ensures r.Some? ==> r.value == j.n.value
  {
    if j.Num? && j.n.Integer? && MinInt32 <= j.n.value <= MaxInt32 then Some(j.n.value) else None
  }
}
