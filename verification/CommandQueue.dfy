/** The commands on their way from the console to the hook. */
module CommandQueue {
  import opened Terminal

  /** The letters of `resetlua`. */
  const RESET_COMMAND: Line := [114, 101, 115, 101, 116, 108, 117, 97]

  /** The commands that reach the hook: all but the resets, in order, where there is a hook at the time. */
  function Delivered(commands: seq<Line>, hooked: seq<bool>): seq<Line>
    requires |hooked| == |commands|
  {
    if commands == [] then []
    else
      var n := |commands| - 1;
      Delivered(commands[..n], hooked[..n]) + if Delivers(commands[n], hooked[n]) then [commands[n]] else []
  }

  predicate Delivers(command: Line, hooked: bool) {
    hooked && command != RESET_COMMAND
  }

  lemma DeliveredOneMore(commands: seq<Line>, hooked: seq<bool>, command: Line, hook: bool)
    requires |hooked| == |commands|
    ensures Delivered(commands + [command], hooked + [hook])
         == Delivered(commands, hooked) + if Delivers(command, hook) then [command] else []
  {
    assert (commands + [command])[..|commands|] == commands;
    assert (hooked + [hook])[..|commands|] == hooked;
  }

  lemma {:induction false} DeliveredInParts(a: seq<Line>, hooksA: seq<bool>, b: seq<Line>, hooksB: seq<bool>)
    requires |hooksA| == |a| && |hooksB| == |b|
    ensures Delivered(a + b, hooksA + hooksB) == Delivered(a, hooksA) + Delivered(b, hooksB)
    decreases |b|
  {
    if b == [] {
      assert a + b == a && hooksA + hooksB == hooksA;
    } else {
      var n := |b| - 1;
      DeliveredInParts(a, hooksA, b[..n], hooksB[..n]);
      DeliveredOneMore(a + b[..n], hooksA + hooksB[..n], b[n], hooksB[n]);
      assert a + b == (a + b[..n]) + [b[n]] && hooksA + hooksB == (hooksA + hooksB[..n]) + [hooksB[n]];
    }
  }

  /** With a hook for each of them and no reset among them, all commands arrive. */
  lemma {:induction false} DeliveredWhole(commands: seq<Line>, hooked: seq<bool>)
    requires |hooked| == |commands| && RESET_COMMAND !in commands && false !in hooked
    ensures Delivered(commands, hooked) == commands
    decreases |commands|
  {
    if commands != [] {
      var n := |commands| - 1;
      assert commands[n] in commands && hooked[n] in hooked;
      DeliveredWhole(commands[..n], hooked[..n]);
    }
  }

  /** One command more is taken from the queue. */
  lemma TakenOneMore(commands: seq<Line>, hooked: seq<bool>, n: nat)
    requires |hooked| == |commands| && n < |commands|
    ensures Delivered(commands[..n + 1], hooked[..n + 1])
         == Delivered(commands[..n], hooked[..n]) + if Delivers(commands[n], hooked[n]) then [commands[n]] else []
    ensures RESET_COMMAND in commands[..n + 1] <==> RESET_COMMAND in commands[..n] || commands[n] == RESET_COMMAND
    ensures commands[n..] == [commands[n]] + commands[n + 1..]
  {
    DeliveredOneMore(commands[..n], hooked[..n], commands[n], hooked[n]);
    assert commands[..n + 1] == commands[..n] + [commands[n]] && hooked[..n + 1] == hooked[..n] + [hooked[n]];
  }

  /** What becomes of the command in place `i`: it is delivered there, between those before and those after, if
      there is a hook and it is not the word resetlua, and otherwise left out. */
  lemma DeliveredAt(commands: seq<Line>, hooked: seq<bool>, i: nat)
    requires |hooked| == |commands| && i < |commands|
    ensures Delivered(commands, hooked)
         == Delivered(commands[..i], hooked[..i])
            + (if hooked[i] && commands[i] != [114, 101, 115, 101, 116, 108, 117, 97] then [commands[i]] else [])
            + Delivered(commands[i + 1..], hooked[i + 1..])
  {
    hide Delivered;
    DeliveredOneMore(commands[..i], hooked[..i], commands[i], hooked[i]);
    DeliveredInParts(commands[..i] + [commands[i]], hooked[..i] + [hooked[i]], commands[i + 1..], hooked[i + 1..]);
    assert commands == (commands[..i] + [commands[i]]) + commands[i + 1..];
    assert hooked == (hooked[..i] + [hooked[i]]) + hooked[i + 1..];
  }
}
