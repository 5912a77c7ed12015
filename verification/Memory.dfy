/** Memory as a sequence: a write or a read outside it touches nothing. */
module Memory {

  function Put<T>(mem: seq<T>, i: nat, x: T): (m: seq<T>)
    ensures |m| == |mem|
  {
    if i < |mem| then mem[i := x] else mem
  }

  function Get<T>(mem: seq<T>, i: nat, none: T): T {
    if i < |mem| then mem[i] else none
  }
}
