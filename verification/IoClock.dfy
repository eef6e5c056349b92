/** frontend/ph_model_gen.cpp (add_io_clock): a clock orders the accesses of all infinite channels with
    two relations for each channel, instead of two for each pair of channels.
 */
module IoClock {
  type Channel = nat

  /** x[i], or the clock's i-th tick. */
  datatype Point = Io(channel: Channel, i: nat) | Clock(i: nat)

  datatype Stream = Stream(channel: Channel, isInfinite: bool)

  type Order = (Point, Point) -> bool

  /** The relations for one channel: x[i] -> clock[i] and clock[i] -> x[i+1]. */
  predicate Step(x: Channel, a: Point, b: Point) {
    || (a == Io(x, a.i) && b == Clock(a.i))
    || (a == Clock(a.i) && b == Io(x, a.i + 1))
  }

  ghost predicate Infinite(streams: seq<Stream>, x: Channel) {
    exists k :: 0 <= k < |streams| && streams[k] == Stream(x, true)
  }

  ghost predicate Related(streams: seq<Stream>, a: Point, b: Point) {
    exists x :: Infinite(streams, x) && Step(x, a, b)
  }

  /** The union of two relations. */
  function Or(r: Order, s: Order): Order {
    (a: Point, b: Point) => r(a, b) || s(a, b)
  }

  method AddChannels(deps: Order, streams: seq<Stream>) returns (all: Order)
    ensures forall a, b :: all(a, b) <==> deps(a, b) || Related(streams, a, b)
  {
    all := deps;
    for k := 0 to |streams|
      invariant forall a, b :: all(a, b) <==> deps(a, b) || Related(streams[..k], a, b)
    {
      ghost var before := all;
      var x := streams[k].channel;
      if streams[k].isInfinite {
        all := Or(all, (a: Point, b: Point) => a == Io(x, a.i) && b == Clock(a.i));
        all := Or(all, (a: Point, b: Point) => a == Clock(a.i) && b == Io(x, a.i + 1));
      }
      forall a, b ensures all(a, b) <==> deps(a, b) || Related(streams[..k + 1], a, b) {
        assert all(a, b) <==> before(a, b) || (streams[k].isInfinite && Step(x, a, b));
        RelatedByOneMore(streams, k, a, b);
      }
    }
    assert streams[..|streams|] == streams;
  }

  lemma RelatedByOneMore(streams: seq<Stream>, k: nat, a: Point, b: Point)
    requires k < |streams|
    ensures Related(streams[..k + 1], a, b) <==>
      Related(streams[..k], a, b) || (streams[k].isInfinite && Step(streams[k].channel, a, b))
  {
    if Related(streams[..k], a, b) {
      var x :| Infinite(streams[..k], x) && Step(x, a, b);
      var j :| 0 <= j < k && streams[..k][j] == Stream(x, true);
      assert streams[..k + 1][j] == Stream(x, true);
      assert Infinite(streams[..k + 1], x);
    }
    if streams[k].isInfinite && Step(streams[k].channel, a, b) {
      assert streams[..k + 1][k] == Stream(streams[k].channel, true);
      assert Infinite(streams[..k + 1], streams[k].channel);
    }
    if Related(streams[..k + 1], a, b) {
      var x :| Infinite(streams[..k + 1], x) && Step(x, a, b);
      var j :| 0 <= j < k + 1 && streams[..k + 1][j] == Stream(x, true);
      if j < k {
        assert streams[..k][j] == Stream(x, true);
        assert Infinite(streams[..k], x);
      }
    }
  }

  method AddIoClock(inputs: seq<Stream>, outputs: seq<Stream>) returns (deps: Order)
    ensures forall a, b :: deps(a, b) <==> Related(inputs + outputs, a, b)
  {
    deps := AddChannels((a, b) => false, inputs);
    deps := AddChannels(deps, outputs);
    forall a, b ensures Related(inputs + outputs, a, b) <==> Related(inputs, a, b) || Related(outputs, a, b) {
      RelatedByEither(inputs, outputs, a, b);
    }
  }

  lemma RelatedByEither(inputs: seq<Stream>, outputs: seq<Stream>, a: Point, b: Point)
    ensures Related(inputs + outputs, a, b) <==> Related(inputs, a, b) || Related(outputs, a, b)
  {
    forall x ensures Infinite(inputs + outputs, x) <==> Infinite(inputs, x) || Infinite(outputs, x) {
      var all := inputs + outputs;
      forall k | 0 <= k < |inputs| ensures all[k] == inputs[k] {}
      forall k | 0 <= k < |outputs| ensures all[|inputs| + k] == outputs[k] {}
      if Infinite(inputs, x) {
        var k :| 0 <= k < |inputs| && inputs[k] == Stream(x, true);
        assert all[k] == Stream(x, true);
      }
      if Infinite(outputs, x) {
        var k :| 0 <= k < |outputs| && outputs[k] == Stream(x, true);
        assert all[|inputs| + k] == Stream(x, true);
      }
      if Infinite(all, x) {
        var k :| 0 <= k < |all| && all[k] == Stream(x, true);
        assert k < |inputs| ==> inputs[k] == Stream(x, true);
        assert k >= |inputs| ==> outputs[k - |inputs|] == Stream(x, true);
      }
    }
  }

  // ---- What the relations imply -------------------------------------------------------------

  ghost predicate Chain(streams: seq<Stream>, path: seq<Point>) {
    |path| >= 2 && forall k {:trigger path[k]} :: 0 <= k < |path| - 1 ==> Related(streams, path[k], path[k + 1])
  }

  /** The transitive closure. */
  ghost predicate Before(streams: seq<Stream>, a: Point, b: Point) {
    exists path :: Chain(streams, path) && path[0] == a && path[|path| - 1] == b
  }

  /** Every step advances: channel i, clock i, channel i + 1, ... */
  function Time(p: Point): nat {
    match p
    case Io(_, i) => 2 * i
    case Clock(i) => 2 * i + 1
  }

  lemma {:induction false} ChainAdvances(streams: seq<Stream>, path: seq<Point>, k: nat)
    requires Chain(streams, path) && k < |path|
    ensures Time(path[k]) == Time(path[0]) + k
  {
    if k > 0 {
      ChainAdvances(streams, path, k - 1);
      assert Related(streams, path[k - 1], path[k - 1 + 1]);
    }
  }

  lemma {:induction false} ChannelsOnChain(streams: seq<Stream>, path: seq<Point>, k: nat)
    requires Chain(streams, path) && k < |path| && path[k].Io?
    ensures Infinite(streams, path[k].channel)
  {
    if k > 0 {
      assert Related(streams, path[k - 1], path[k - 1 + 1]);
    } else {
      assert Related(streams, path[0], path[1]);
    }
  }

  /** Ticks i, ..., i + n of the clock are ordered through any infinite channel. */
  function Ticks(x: Channel, i: nat, n: nat): (path: seq<Point>)
    ensures |path| == 2 * n + 1
    decreases n
  {
    if n == 0 then [Clock(i)] else [Clock(i), Io(x, i + 1)] + Ticks(x, i + 1, n - 1)
  }

  lemma {:induction false} TicksAreRelated(streams: seq<Stream>, x: Channel, i: nat, n: nat)
    requires Infinite(streams, x)
    ensures Ticks(x, i, n)[0] == Clock(i) && Ticks(x, i, n)[2 * n] == Clock(i + n)
    ensures forall k {:trigger Ticks(x, i, n)[k]} :: 0 <= k < 2 * n ==> Related(streams, Ticks(x, i, n)[k], Ticks(x, i, n)[k + 1])
    decreases n
  {
    if n > 0 {
      TicksAreRelated(streams, x, i + 1, n - 1);
      var path, rest := Ticks(x, i, n), Ticks(x, i + 1, n - 1);
      assert Step(x, Clock(i), Io(x, i + 1)) && Step(x, Io(x, i + 1), Clock(i + 1));
      forall k | 0 <= k < 2 * n ensures Related(streams, path[k], path[k + 1]) {
        if k >= 2 {
          assert path[k] == rest[k - 2] && path[k + 1] == rest[k - 2 + 1];
        }
      }
    }
  }

  lemma LaterIsAfter(streams: seq<Stream>, x: Channel, i: nat, y: Channel, j: nat)
    requires Infinite(streams, x) && Infinite(streams, y) && i < j
    ensures Before(streams, Io(x, i), Io(y, j))
  {
    var n := j - 1 - i;
    var ticks := Ticks(x, i, n);
    TicksAreRelated(streams, x, i, n);
    var path := [Io(x, i)] + ticks + [Io(y, j)];
    assert Step(x, Io(x, i), Clock(i)) && Step(y, Clock(j - 1), Io(y, j));
    forall k | 0 <= k < |path| - 1 ensures Related(streams, path[k], path[k + 1]) {
      if k == 0 {
        assert path[1] == ticks[0];
      } else if k <= 2 * n {
        assert path[k] == ticks[k - 1] && path[k + 1] == ticks[k - 1 + 1];
      } else {
        assert path[k] == ticks[2 * n] && path[k + 1] == Io(y, j);
      }
    }
    assert Chain(streams, path) && path[0] == Io(x, i) && path[|path| - 1] == Io(y, j);
  }

  /** Restricted to channels, the closure is the order of every access at i before every access at a
      later j, on any two infinite channels. */
  lemma ClockIsQuadraticOrder(streams: seq<Stream>, x: Channel, i: nat, y: Channel, j: nat)
    ensures Before(streams, Io(x, i), Io(y, j)) <==> Infinite(streams, x) && Infinite(streams, y) && i < j
  {
    if Before(streams, Io(x, i), Io(y, j)) {
      var path :| Chain(streams, path) && path[0] == Io(x, i) && path[|path| - 1] == Io(y, j);
      ChainAdvances(streams, path, |path| - 1);
      ChannelsOnChain(streams, path, 0);
      ChannelsOnChain(streams, path, |path| - 1);
    }
    if Infinite(streams, x) && Infinite(streams, y) && i < j {
      LaterIsAfter(streams, x, i, y, j);
    }
  }

  lemma ClockIsAcyclic(streams: seq<Stream>, p: Point)
    ensures !Before(streams, p, p)
  {
    if Before(streams, p, p) {
      var path :| Chain(streams, path) && path[0] == p && path[|path| - 1] == p;
      ChainAdvances(streams, path, |path| - 1);
    }
  }
}
