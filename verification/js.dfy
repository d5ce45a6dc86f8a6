/** The JavaScript values the DroidNet views pass around: optional values,
    the loosely typed fields of a parsed record, the outcome of one `adb`
    invocation, and `Object.assign` over records. */
module Js {

  /** A value that may be missing (`null` / `undefined` in the views). */
  datatype Option<+T> = None | Some(value: T)

  /** Why a parser's promise was rejected and caught as `{error}`. */
  datatype Fault =
    | TypeError(what: string)      // a property read on `undefined` or `null`
    | Rejected(reason: string)     // the bridge invocation itself failed

  /** A field of a partial device record. `Table` is the `df` result, an
      array used as an object with named properties. */
  datatype Val =
    | Str(s: string)
    | List(items: seq<string>)
    | Null
    | Undefined
    | Table(cells: map<string, Val>)
    | Thrown(fault: Fault)

  /** A partial record: the fields a parser retrieved, by name. An absent key
      means "not retrieved"; `Str("")` means "retrieved but blank". */
  type Record = map<string, Val>

  /** The result of `fs.exec('adb', argv)`: the separated output streams, or
      a rejected promise when the tool could not be invoked at all. */
  datatype Exec = Exec(stdout: string, stderr: string) | ExecFailed(reason: string)

  /** The record `{error}` that every parser's `.catch` returns. */
  function ErrorRecord(f: Fault): (r: Record)
    ensures r.Keys == {"error"} && r["error"].Thrown?
  {
    map["error" := Thrown(f)]
  }

  /** `Object.assign({}, rs[0], rs[1], ...)`: a left-to-right shallow merge in
      which a later record overrides an earlier one on a shared key. */
  function Assign(rs: seq<Record>): (r: Record)
    ensures forall k :: k in r <==> exists j :: 0 <= j < |rs| && k in rs[j]
  {
    if rs == [] then map[] else Assign(rs[..|rs| - 1]) + rs[|rs| - 1]
  }

  /** The value of a merged key comes from the last record that holds it. */
  lemma {:induction false} AssignLastWins(rs: seq<Record>, j: nat, k: string)
    requires j < |rs| && k in rs[j]
    requires forall j' :: j < j' < |rs| ==> k !in rs[j']
    ensures k in Assign(rs) && Assign(rs)[k] == rs[j][k]
  {
    if j < |rs| - 1 {
      AssignLastWins(rs[..|rs| - 1], j, k);
      assert k !in rs[|rs| - 1];
    }
  }

  /** One more record merged overrides the merge so far. */
  lemma AssignSnoc(rs: seq<Record>, r: Record)
    ensures Assign(rs + [r]) == Assign(rs) + r
  {
    assert (rs + [r])[..|rs|] == rs;
  }

  /** Three records merged: each key takes its value from the last record holding it. */
  lemma AssignThree(a: Record, b: Record, c: Record)
    ensures Assign([a, b, c]) == a + b + c
  {
    AssignSnoc([], a);
    assert [] + [a] == [a] && map[] + a == a;
    AssignSnoc([a], b);
    assert [a] + [b] == [a, b];
    AssignSnoc([a, b], c);
    assert [a, b] + [c] == [a, b, c];
  }

  /** Four records merged: each key takes its value from the last record holding it. */
  lemma AssignFour(a: Record, b: Record, c: Record, d: Record)
    ensures Assign([a, b, c, d]) == a + b + c + d
  {
    AssignThree(a, b, c);
    AssignSnoc([a, b, c], d);
    assert [a, b, c] + [d] == [a, b, c, d];
  }
}
