/** redis/client.cpp: which send buffers can be read as other commands than those they were printed from. */
module Ambiguity {
  import opened Sequences
  import opened Bytes
  import opened Decimal
  import opened Command
  import opened Client

  predicate BreakAt(x: seq<byte>, k: nat) { k + 2 <= |x| && x[k] == CR && x[k + 1] == LF }

  predicate HasBreak(x: seq<byte>) { exists k :: 0 <= k < |x| && BreakAt(x, k) }

  /** Some other list of nonempty commands prints the same bytes; empty commands print nothing. */
  ghost predicate Ambiguous(a: seq<Arguments>) {
    exists b: seq<Arguments> :: [] !in b && b != a && SendBuffer(b) == SendBuffer(a)
  }

  lemma {:induction false} ArgumentListEnd(arguments: Arguments) returns (z: seq<byte>)
    requires arguments != []
    ensures ArgumentList(arguments) == z + CRLF
  {
    if |arguments| == 1 {
      z := [DOLLAR] + ToString(|arguments[0]|) + CRLF + arguments[0];
      assert ArgumentList(arguments) == Argument(arguments[0]) + [];
    } else {
      var y := ArgumentListEnd(arguments[1..]);
      z := Argument(arguments[0]) + y;
    }
  }

  /** The first line of a printed command, and what is behind it. */
  lemma SerializedLine(command: Arguments) returns (line: seq<byte>, t: seq<byte>)
    requires command != []
    ensures Serialize(command) == line + CRLF + t
    ensures if |command| == 1 then t == [] && line == command[0] else exists y :: t == y + CRLF
  {
    if |command| == 1 {
      line, t := command[0], [];
      assert line + CRLF + [] == line + CRLF;
    } else {
      line, t := [STAR] + ToString(|command|), ArgumentList(command);
      var y := ArgumentListEnd(command);
    }
  }

  lemma CommandAsLine(command: Arguments) returns (z: seq<byte>)
    requires command != []
    ensures Serialize(command) == z + CRLF
  {
    var line, t := SerializedLine(command);
    if |command| == 1 {
      z := line;
    } else {
      var y :| t == y + CRLF;
      z := line + CRLF + y;
      Associate(line + CRLF, y, CRLF);
    }
  }

  /** A buffer of commands ends with a line break, so one inline command prints it too. */
  lemma {:induction false} BufferAsLine(commands: seq<Arguments>) returns (z: seq<byte>)
    requires commands != [] && [] !in commands
    ensures SendBuffer(commands) == z + CRLF
  {
    if |commands| == 1 {
      z := CommandAsLine(commands[0]);
      assert SendBuffer(commands[1..]) == [] && Serialize(commands[0]) + [] == Serialize(commands[0]);
    } else {
      var w := BufferAsLine(commands[1..]);
      z := Serialize(commands[0]) + w;
      Associate(Serialize(commands[0]), w, CRLF);
    }
  }

  lemma BreakInside(x: seq<byte>, line: seq<byte>, t: seq<byte>)
    requires x + CRLF == line + CRLF + t && |t| >= 2
    ensures HasBreak(x)
  {
    var s := x + CRLF;
    assert s[|line|] == x[|line|] && s[|line| + 1] == x[|line| + 1];
    assert BreakAt(x, |line|);
  }

  lemma LineIsCancelled(x: seq<byte>, y: seq<byte>)
    requires x + CRLF == y + CRLF
    ensures x == y
  {
    assert (x + CRLF)[..|x|] == x && (y + CRLF)[..|y|] == y;
  }

  lemma MoreIsNotNothing(b: seq<Arguments>)
    requires b != [] && [] !in b
    ensures |b| > 1 ==> |SendBuffer(b[1..])| >= 2
  {
    if |b| > 1 {
      var w := BufferAsLine(b[1..]);
    }
  }

  /** Other commands that print like one inline command show a line break in it. */
  lemma OtherReadingHasBreak(x: seq<byte>, b: seq<Arguments>)
    requires [] !in b && b != [[x]] && SendBuffer(b) == x + CRLF
    ensures HasBreak(x)
  {
    assert b != [];
    var line, t := SerializedLine(b[0]);
    var others := SendBuffer(b[1..]);
    Associate(line + CRLF, t, others);
    MoreIsNotNothing(b);
    if |t + others| >= 2 {
      BreakInside(x, line, t + others);
    } else {
      assert b == [[line]] by {
        assert b == [b[0]] && b[0] == [b[0][0]];
      }
      assert t + others == [] && line + CRLF + [] == line + CRLF;
      LineIsCancelled(x, line);
    }
  }

  lemma BreakIsTwoReadings(x: seq<byte>, k: nat)
    requires BreakAt(x, k)
    ensures Ambiguous([[x]])
  {
    var u, v := x[..k], x[k + 2..];
    assert x == u + CRLF + v;
    InlineCommandsAreAmbiguous(u, v);
    assert |[[u], [v]]| != |[[x]]|;
  }

  lemma SingleBuffer(x: seq<byte>)
    ensures SendBuffer([[x]]) == x + CRLF
  {
    assert [[x]][1..] == [];
    assert Serialize([x]) + [] == x + CRLF;
  }

  lemma {:induction false} InlineAmbiguousExactly(x: seq<byte>)
    ensures Ambiguous([[x]]) <==> HasBreak(x)
  {
    SingleBuffer(x);
    if b: seq<Arguments> :| [] !in b && b != [[x]] && SendBuffer(b) == SendBuffer([[x]]) {
      OtherReadingHasBreak(x, b);
    }
    if k: nat :| BreakAt(x, k) {
      BreakIsTwoReadings(x, k);
    }
  }

  lemma OneLineReading(a: seq<Arguments>, z: seq<byte>)
    requires SendBuffer(a) == SendBuffer([[z]]) && a != [[z]]
    ensures Ambiguous(a)
  {
    var command: Arguments := [z];
    var b: seq<Arguments> := [command];
    assert |command| == 1;
    assert forall c :: c in b ==> c == command;
    assert SendBuffer(b) == SendBuffer(a);
  }

  /**
   Which send buffers can be read as other commands, exactly: all but the empty one and that of a
   single inline command without a line break in it.
   */
  lemma {:induction false} AmbiguousExactly(a: seq<Arguments>)
    requires [] !in a
    ensures Ambiguous(a) <==> a != [] && !(|a| == 1 && |a[0]| == 1 && !HasBreak(a[0][0]))
  {
    if a == [] {
      forall b: seq<Arguments> | [] !in b && b != [] ensures SendBuffer(b) != [] {
        var z := BufferAsLine(b);
      }
    } else {
      var z := BufferAsLine(a);
      SingleBuffer(z);
      if |a| == 1 && |a[0]| == 1 {
        var x := a[0][0];
        SingleBuffer(x);
        assert a[0] == [x];
        assert a == [[x]];
        LineIsCancelled(z, x);
      }
      if a == [[z]] {
        InlineAmbiguousExactly(z);
      } else {
        OneLineReading(a, z);
      }
    }
  }
}
