/** Positions inside a JSON value: which entry of a map or array to go to, step by step. */
module Positions {
  import opened Wrappers
  import opened Values

  datatype Step = Key(k: string) | Index(i: nat)

  type Position = seq<Step>

  predicate IsLeaf(v: Value) {
    !v.Obj? && !v.Arr?
  }

  /** The entry of a map or array that a step leads to. */
  function Child(v: Value, step: Step): Option<Value> {
    match (v, step)
    case (Obj(obj), Key(k)) => if k in obj.fields then Some(obj.fields[k]) else None
    case (Arr(elems), Index(i)) => if i < |elems| then Some(elems[i]) else None
    case _ => None
  }

  /** The value at a position, if the value has that position. */
  function At(v: Value, p: Position): Option<Value>
    decreases |p|
  {
    if p == [] then Some(v)
    else
      match Child(v, p[0])
      case None => None
      case Some(c) => At(c, p[1..])
  }

  /** The value with one entry replaced. */
  function SetChild(v: Value, step: Step, c: Value): (r: Value)
    requires Child(v, step).Some?
    ensures Child(r, step) == Some(c)
    ensures forall other | other != step :: Child(r, other) == Child(v, other)
  {
    if v.Obj? then Obj(Object(v.obj.fields[step.k := c])) else Arr(v.elems[step.i := c])
  }

  /** The value with what is at a position replaced. */
  function Put(v: Value, p: Position, w: Value): (r: Value)
    requires At(v, p).Some?
    decreases |p|
  {
    if p == [] then w else SetChild(v, p[0], Put(Child(v, p[0]).value, p[1..], w))
  }
}
