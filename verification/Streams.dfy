/** Machines that read a stream byte by byte: the meaning the incremental parsers are measured against. */
module Streams {
  /** One byte, of type B, takes a mode to the next one and gives some messages. */
  type Machine<!M, !B, +O> = (M, B) -> (M, seq<O>)

  function After<M, B, O>(machine: Machine<M, B, O>, mode: M, stream: seq<B>): M
    decreases |stream|
  {
    if stream == [] then mode else After(machine, machine(mode, stream[0]).0, stream[1..])
  }

  function Output<M, B, O>(machine: Machine<M, B, O>, mode: M, stream: seq<B>): seq<O>
    decreases |stream|
  {
    if stream == [] then []
    else machine(mode, stream[0]).1 + Output(machine, machine(mode, stream[0]).0, stream[1..])
  }

  /** A stream can be cut anywhere. */
  lemma {:induction false} CutAnywhere<M, B, O>(machine: Machine<M, B, O>, mode: M, a: seq<B>, b: seq<B>)
    ensures After(machine, mode, a + b) == After(machine, After(machine, mode, a), b)
    ensures Output(machine, mode, a + b) == Output(machine, mode, a) + Output(machine, After(machine, mode, a), b)
    decreases |a|
  {
    if a == [] {
      assert a + b == b;
    } else {
      assert (a + b)[1..] == a[1..] + b;
      CutAnywhere(machine, machine(mode, a[0]).0, a[1..], b);
    }
  }

  lemma OneByte<M, B, O>(machine: Machine<M, B, O>, mode: M, c: B)
    ensures After(machine, mode, [c]) == machine(mode, c).0
    ensures Output(machine, mode, [c]) == machine(mode, c).1
  {
    assert [c][1..] == [];
  }
}
