/** redis/command.cpp: the tokenizer of command text and the printer of the wire form. */
module Command {
  import opened Sequences
  import opened Bytes
  import opened Decimal
  import opened Values
  import opened Resp
  import opened Reply
  import opened ReplyLaws

  type Arguments = seq<seq<byte>>

  // ---- Tokenizer ----

  function Flush(member: seq<byte>): Arguments { if member == [] then [] else [member] }

  /**
   One pass over the text: `member` is the argument being collected and `quoted` says on which
   side of a quote mark the next byte is.
   */
  function Split(s: seq<byte>, member: seq<byte>, quoted: bool): Arguments {
    if s == [] then Flush(member)
    else if s[0] == QUOTE then Split(s[1..], member, !quoted)
    else if s[0] == SPACE && !quoted then Flush(member) + Split(s[1..], [], false)
    else Split(s[1..], member + [s[0]], quoted)
  }

  function Tokens(text: seq<byte>): Arguments { Split(text, [], false) }

  function Quotes(s: seq<byte>): nat {
    if s == [] then 0 else (if s[0] == QUOTE then 1 else 0) + Quotes(s[1..])
  }

  lemma {:induction false} QuotesConcat(a: seq<byte>, b: seq<byte>)
    ensures Quotes(a + b) == Quotes(a) + Quotes(b)
  {
    if a == [] {
      assert a + b == b;
    } else {
      assert (a + b)[1..] == a[1..] + b;
      QuotesConcat(a[1..], b);
    }
  }

  /** Whether a quote is open after the first `n` bytes of the text. */
  predicate OpenAfter(text: seq<byte>, n: nat)
    requires n <= |text|
  {
    n > 0 && OpenAfter(text, n - 1) != (text[n - 1] == QUOTE)
  }

  lemma {:induction false} OpenAfterOddQuotes(text: seq<byte>, n: nat)
    requires n <= |text|
    ensures OpenAfter(text, n) <==> Quotes(text[..n]) % 2 == 1
  {
    if n > 0 {
      OpenAfterOddQuotes(text, n - 1);
      assert text[..n] == text[..n - 1] + [text[n - 1]];
      QuotesConcat(text[..n - 1], [text[n - 1]]);
    }
  }

  /** A quote opens at the last character: the tokenizer then reads behind the end of its text. */
  predicate OpensAtEnd(text: seq<byte>) {
    text != [] && text[|text| - 1] == QUOTE && OpenAfter(text, |text|)
  }

  // ---- Printer ----

  function Argument(argument: seq<byte>): seq<byte> {
    [DOLLAR] + ToString(|argument|) + CRLF + (argument + CRLF)
  }

  function ArgumentList(arguments: Arguments): seq<byte> {
    if arguments == [] then [] else Argument(arguments[0]) + ArgumentList(arguments[1..])
  }

  function Serialize(arguments: Arguments): seq<byte> {
    if arguments == [] then []
    else if |arguments| == 1 then arguments[0] + CRLF
    else [STAR] + ToString(|arguments|) + CRLF + ArgumentList(arguments)
  }

  // What one byte of the text does to the arguments.

  lemma SplitQuote(text: seq<byte>, it: nat, member: seq<byte>, quoted: bool)
    requires it < |text| && text[it] == QUOTE
    ensures Split(text[it..], member, quoted) == Split(text[it + 1..], member, !quoted)
  {
    assert text[it..][1..] == text[it + 1..];
  }

  lemma SplitSpace(text: seq<byte>, it: nat, found: Arguments, member: seq<byte>)
    requires it < |text| && text[it] == SPACE
    ensures found + Split(text[it..], member, false) == found + Flush(member) + Split(text[it + 1..], [], false)
  {
    assert text[it..][1..] == text[it + 1..];
  }

  lemma SplitByte(text: seq<byte>, it: nat, member: seq<byte>, quoted: bool)
    requires it < |text| && text[it] != QUOTE && (quoted || text[it] != SPACE)
    ensures Split(text[it..], member, quoted) == Split(text[it + 1..], member + [text[it]], quoted)
  {
    assert text[it..][1..] == text[it + 1..];
  }

  lemma ArgumentListStep(before: seq<byte>, arguments: Arguments)
    requires arguments != []
    ensures before + ArgumentList(arguments) ==
            before + [DOLLAR] + (ToString(|arguments[0]|) + CRLF) + (arguments[0] + CRLF) + ArgumentList(arguments[1..])
  {
    var line, body, others := ToString(|arguments[0]|) + CRLF, arguments[0] + CRLF, ArgumentList(arguments[1..]);
    assert Argument(arguments[0]) == [DOLLAR] + line + body by {
      Associate([DOLLAR], ToString(|arguments[0]|), CRLF);
    }
    Associate([DOLLAR], line, body);
    Associate(before, [DOLLAR] + line + body, others);
    Associate(before, [DOLLAR], line);
    Associate(before, [DOLLAR] + line, body);
  }

  /** The inner loop: from behind an opening quote to behind the closing one, or to the end. */
  method ReadQuoted(text: seq<byte>, start: nat, collected: seq<byte>) returns (it: nat, member: seq<byte>)
    requires start < |text| && OpenAfter(text, start)
    ensures start < it <= |text| && (it == |text| || !OpenAfter(text, it))
    ensures Split(text[start..], collected, true) == Split(text[it..], member, false)
  {
    it, member := start, collected;
    while text[it] != QUOTE
      invariant start <= it < |text| && OpenAfter(text, it)
      invariant Split(text[start..], collected, true) == Split(text[it..], member, true)
      decreases |text| - it
    {
      SplitByte(text, it, member, true);
      member := member + [text[it]];
      it := it + 1;
      if it == |text| {
        break;
      }
    }
    if it != |text| {
      SplitQuote(text, it, member, true);
      it := it + 1;
    }
  }

  class CommandObject {
    var commands: Arguments

    constructor FromText(text: seq<byte>)
      requires !OpensAtEnd(text)
      ensures commands == Tokens(text)
    {
      commands := [];
      new;
      var it := 0;
      var member: seq<byte> := [];
      ghost var expected := Tokens(text);
      assert text[0..] == text;
      while it != |text|
        invariant it <= |text|
        invariant it == |text| || !OpenAfter(text, it)
        invariant expected == commands + Split(text[it..], member, false)
      {
        if text[it] == SPACE {
          SplitSpace(text, it, commands, member);
          if member != [] {
            commands := commands + [member];
          }
          member := [];
          it := it + 1;
        } else if text[it] == QUOTE {
          SplitQuote(text, it, member, false);
          it := it + 1;
          it, member := ReadQuoted(text, it, member);
        } else {
          SplitByte(text, it, member, false);
          member := member + [text[it]];
          it := it + 1;
        }
      }
      if member != [] {
        commands := commands + [member];
      }
    }

    constructor FromList(arguments: Arguments)
      ensures commands == arguments
    {
      commands := arguments;
    }

    predicate Empty()
      reads this
    {
      commands == []
    }

    method SerializedCommand() returns (text: seq<byte>)
      ensures text == Serialize(commands)
    {
      text := [];
      if Empty() {
        return;
      }
      if |commands| == 1 {
        text := commands[0];
        text := text + CRLF;
        return;
      }
      text := [STAR];
      text := text + ToString(|commands|);
      text := text + CRLF;
      ghost var expected := Serialize(commands);
      assert commands[0..] == commands;
      for i := 0 to |commands|
        invariant expected == text + ArgumentList(commands[i..])
      {
        ArgumentListStep(text, commands[i..]);
        assert commands[i..][1..] == commands[i + 1..];
        var argument := commands[i];
        text := text + [DOLLAR];
        text := text + (ToString(|argument|) + CRLF);
        text := text + (argument + CRLF);
      }
      assert text + [] == text;
    }
  }

  // ---- What the tokenizer keeps ----

  /** The text without its quote marks and without the spaces outside quotes. */
  function Kept(s: seq<byte>, quoted: bool): seq<byte> {
    if s == [] then []
    else if s[0] == QUOTE then Kept(s[1..], !quoted)
    else if s[0] == SPACE && !quoted then Kept(s[1..], false)
    else [s[0]] + Kept(s[1..], quoted)
  }

  function Joined(arguments: Arguments): seq<byte> {
    if arguments == [] then [] else arguments[0] + Joined(arguments[1..])
  }

  lemma {:induction false} JoinedConcat(a: Arguments, b: Arguments)
    ensures Joined(a + b) == Joined(a) + Joined(b)
  {
    if a == [] {
      assert a + b == b;
    } else {
      assert (a + b)[1..] == a[1..] + b;
      JoinedConcat(a[1..], b);
    }
  }

  lemma {:induction false} SplitConserves(s: seq<byte>, member: seq<byte>, quoted: bool)
    ensures Joined(Split(s, member, quoted)) == member + Kept(s, quoted)
    ensures [] !in Split(s, member, quoted)
  {
    if s == [] {
    } else if s[0] == QUOTE {
      SplitConserves(s[1..], member, !quoted);
    } else if s[0] == SPACE && !quoted {
      SplitConserves(s[1..], [], false);
      JoinedConcat(Flush(member), Split(s[1..], [], false));
    } else {
      SplitConserves(s[1..], member + [s[0]], quoted);
      Associate(member, [s[0]], Kept(s[1..], quoted));
    }
  }

  /** No argument is empty, and no byte is lost, added or moved. */
  lemma TokensConserve(text: seq<byte>)
    ensures Joined(Tokens(text)) == Kept(text, false)
    ensures [] !in Tokens(text)
  {
    SplitConserves(text, [], false);
  }

  // ---- Writing arguments so that the tokenizer reads them back ----

  /** A stretch of an argument, written bare or between quote marks. */
  datatype Segment = Segment(quoted: bool, bytes: seq<byte>)

  /** An argument: the spaces in front of it and the segments it is written in. */
  datatype Word = Word(gap: nat, segments: seq<Segment>)

  predicate Writable(segment: Segment) {
    QUOTE !in segment.bytes && (segment.quoted || SPACE !in segment.bytes)
  }

  function Spaces(k: nat): (s: seq<byte>)
    ensures |s| == k && forall b :: b in s ==> b == SPACE
  {
    if k == 0 then [] else [SPACE] + Spaces(k - 1)
  }

  function Spelled(segment: Segment): seq<byte> {
    if segment.quoted then [QUOTE] + (segment.bytes + [QUOTE]) else segment.bytes
  }

  function Written(segments: seq<Segment>): seq<byte> {
    if segments == [] then [] else Spelled(segments[0]) + Written(segments[1..])
  }

  function Content(segments: seq<Segment>): seq<byte> {
    if segments == [] then [] else segments[0].bytes + Content(segments[1..])
  }

  predicate WellSpelled(word: Word) {
    Content(word.segments) != [] && forall segment :: segment in word.segments ==> Writable(segment)
  }

  /** Arguments in text: at least one space in front of each but the first. */
  predicate WellSpaced(words: seq<Word>) {
    (forall word :: word in words ==> WellSpelled(word)) &&
    forall i :: 0 < i < |words| ==> words[i].gap > 0
  }

  function Text(words: seq<Word>, trailing: nat): seq<byte> {
    if words == [] then Spaces(trailing)
    else Spaces(words[0].gap) + (Written(words[0].segments) + Text(words[1..], trailing))
  }

  function Contents(words: seq<Word>): Arguments {
    if words == [] then [] else [Content(words[0].segments)] + Contents(words[1..])
  }

  lemma {:induction false} SplitBytes(bytes: seq<byte>, rest: seq<byte>, member: seq<byte>, quoted: bool)
    requires QUOTE !in bytes && (quoted || SPACE !in bytes)
    ensures Split(bytes + rest, member, quoted) == Split(rest, member + bytes, quoted)
  {
    if bytes == [] {
      assert bytes + rest == rest && member + bytes == member;
    } else {
      assert bytes[0] in bytes;
      assert (bytes + rest)[1..] == bytes[1..] + rest;
      SplitBytes(bytes[1..], rest, member + [bytes[0]], quoted);
      assert member + [bytes[0]] + bytes[1..] == member + bytes;
    }
  }

  lemma SplitSegment(segment: Segment, rest: seq<byte>, member: seq<byte>)
    requires Writable(segment)
    ensures Split(Spelled(segment) + rest, member, false) == Split(rest, member + segment.bytes, false)
  {
    if segment.quoted {
      var s := Spelled(segment) + rest;
      assert s == [QUOTE] + (segment.bytes + ([QUOTE] + rest));
      assert s[1..] == segment.bytes + ([QUOTE] + rest);
      SplitBytes(segment.bytes, [QUOTE] + rest, member, true);
      assert ([QUOTE] + rest)[1..] == rest;
    } else {
      SplitBytes(segment.bytes, rest, member, false);
    }
  }

  lemma {:induction false} SplitSegments(segments: seq<Segment>, rest: seq<byte>, member: seq<byte>)
    requires forall segment :: segment in segments ==> Writable(segment)
    ensures Split(Written(segments) + rest, member, false) == Split(rest, member + Content(segments), false)
  {
    if segments == [] {
      assert Written(segments) + rest == rest && member + Content(segments) == member;
    } else {
      var bytes, others := segments[0].bytes, segments[1..];
      assert Writable(segments[0]);
      assert Written(segments) + rest == Spelled(segments[0]) + (Written(others) + rest);
      SplitSegment(segments[0], Written(others) + rest, member);
      SplitSegments(others, rest, member + bytes);
      assert member + bytes + Content(others) == member + Content(segments);
    }
  }

  lemma {:induction false} SplitSpaces(k: nat, rest: seq<byte>, member: seq<byte>)
    ensures Split(Spaces(k) + rest, member, false) ==
            if k == 0 then Split(rest, member, false) else Flush(member) + Split(rest, [], false)
  {
    if k == 0 {
      assert Spaces(k) + rest == rest;
    } else {
      assert (Spaces(k) + rest)[1..] == Spaces(k - 1) + rest;
      SplitSpaces(k - 1, rest, []);
    }
  }

  lemma {:induction false} SplitText(words: seq<Word>, trailing: nat, member: seq<byte>)
    requires WellSpaced(words)
    requires words != [] && member != [] ==> words[0].gap > 0
    ensures Split(Text(words, trailing), member, false) == Flush(member) + Contents(words)
  {
    if words == [] {
      assert Spaces(trailing) + [] == Spaces(trailing);
      SplitSpaces(trailing, [], member);
    } else {
      var word, others := words[0], words[1..];
      assert word in words;
      assert forall w :: w in others ==> w in words;
      assert forall i :: 0 < i < |others| ==> others[i] == words[i + 1];
      assert others != [] ==> others[0] == words[1];
      var rest := Text(others, trailing);
      SplitSpaces(word.gap, Written(word.segments) + rest, member);
      var content := Content(word.segments);
      SplitSegments(word.segments, rest, []);
      assert [] + content == content;
      SplitText(others, trailing, content);
    }
  }

  lemma {:induction false} NoQuotes(s: seq<byte>)
    requires QUOTE !in s
    ensures Quotes(s) == 0
  {
    if s != [] {
      assert s[0] in s;
      NoQuotes(s[1..]);
    }
  }

  lemma {:induction false} WrittenQuotes(segments: seq<Segment>)
    requires forall segment :: segment in segments ==> Writable(segment)
    ensures Quotes(Written(segments)) % 2 == 0
  {
    if segments != [] {
      var segment := segments[0];
      assert Writable(segment);
      WrittenQuotes(segments[1..]);
      NoQuotes(segment.bytes);
      QuotesConcat(segment.bytes, [QUOTE]);
      QuotesConcat([QUOTE], segment.bytes + [QUOTE]);
      assert Quotes([QUOTE]) == 1;
      QuotesConcat(Spelled(segment), Written(segments[1..]));
    }
  }

  lemma {:induction false} TextQuotes(words: seq<Word>, trailing: nat)
    requires forall word :: word in words ==> WellSpelled(word)
    ensures Quotes(Text(words, trailing)) % 2 == 0
  {
    if words == [] {
      NoQuotes(Spaces(trailing));
    } else {
      var word := words[0];
      assert word in words;
      TextQuotes(words[1..], trailing);
      WrittenQuotes(word.segments);
      NoQuotes(Spaces(word.gap));
      QuotesConcat(Written(word.segments), Text(words[1..], trailing));
      QuotesConcat(Spaces(word.gap), Written(word.segments) + Text(words[1..], trailing));
    }
  }

  /**
   Any arguments, each spelled in bare and quoted stretches and set apart by spaces, are read
   back as they were, and such a text never opens a quote at its last character.
   */
  lemma {:induction false} TokensReadBack(words: seq<Word>, trailing: nat)
    requires WellSpaced(words)
    ensures !OpensAtEnd(Text(words, trailing))
    ensures Tokens(Text(words, trailing)) == Contents(words)
  {
    var text := Text(words, trailing);
    TextQuotes(words, trailing);
    OpenAfterOddQuotes(text, |text|);
    assert text[..|text|] == text;
    SplitText(words, trailing, []);
    assert Flush([]) + Contents(words) == Contents(words);
  }

  // ---- A quote that is not closed ----

  lemma {:induction false} SplitUnclosed(s: seq<byte>, member: seq<byte>, quoted: bool)
    requires (Quotes(s) % 2 == 1) != quoted
    ensures Split(s + [QUOTE], member, quoted) == Split(s, member, quoted)
  {
    if s == [] {
      var none: seq<byte> := [];
      assert s + [QUOTE] == [QUOTE] && [QUOTE][1..] == none;
      assert Split(none, member, false) == Flush(member);
    } else {
      assert (s + [QUOTE])[1..] == s[1..] + [QUOTE];
      if s[0] == QUOTE {
        SplitUnclosed(s[1..], member, !quoted);
      } else if s[0] == SPACE && !quoted {
        SplitUnclosed(s[1..], [], false);
      } else {
        SplitUnclosed(s[1..], member + [s[0]], quoted);
      }
    }
  }

  /** A quote that is open at the end of the text is read as if it were closed there. */
  lemma {:induction false} UnclosedQuote(text: seq<byte>)
    requires OpenAfter(text, |text|)
    ensures Tokens(text) == Tokens(text + [QUOTE])
  {
    OpenAfterOddQuotes(text, |text|);
    assert text[..|text|] == text;
    SplitUnclosed(text, [], false);
  }

  lemma TwoTokens(u: seq<byte>, rest: seq<byte>)
    requires u != [] && ' ' as int !in u && '"' as int !in u
    ensures Tokens(u + ([' ' as int] + rest)) == [u] + Tokens(rest)
  {
    var t := [' ' as int] + rest;
    SplitBytes(u, t, [], false);
    assert t[1..] == rest && [] + u == u;
  }

  lemma OneToken(v: seq<byte>)
    requires v != [] && ' ' as int !in v && '"' as int !in v
    ensures Tokens(v) == [v]
  {
    SplitBytes(v, [], [], false);
    assert v + [] == v && [] + v == v;
  }

  lemma QuotedToken(w: seq<byte>)
    requires w != [] && '"' as int !in w
    ensures Tokens(['"' as int] + w) == [w]
    ensures Tokens(['"' as int] + w + ['"' as int]) == [w]
  {
    var mark: seq<byte> := ['"' as int];
    assert mark[1..] == [];
    SplitBytes(w, [], [], true);
    SplitBytes(w, mark, [], true);
    assert (mark + w)[1..] == w && w + [] == w && [] + w == w;
    assert (mark + w + mark)[1..] == w + mark;
  }

  /**
   The marks of the command text: a space separates, quote marks hold spaces together, and the
   second of them may be missing.
   */
  lemma SpacesAndQuotes(u: seq<byte>, v: seq<byte>, w: seq<byte>)
    requires u != [] && ' ' as int !in u && '"' as int !in u
    requires v != [] && ' ' as int !in v && '"' as int !in v
    requires w != [] && '"' as int !in w
    ensures Tokens(u + ([' ' as int] + v)) == [u, v]
    ensures Tokens(u + ([' ' as int] + (['"' as int] + w + ['"' as int]))) == [u, w]
    ensures Tokens(u + ([' ' as int] + (['"' as int] + w))) == [u, w]
  {
    OneToken(v);
    QuotedToken(w);
    TwoTokens(u, v);
    TwoTokens(u, ['"' as int] + w + ['"' as int]);
    TwoTokens(u, ['"' as int] + w);
  }

  // ---- What the tokenizer can yield ----

  lemma {:induction false} NoQuoteKept(s: seq<byte>, quoted: bool)
    ensures QUOTE !in Kept(s, quoted)
  {
    if s != [] {
      NoQuoteKept(s[1..], if s[0] == QUOTE then !quoted else quoted);
    }
  }

  lemma {:induction false} JoinedHolds(arguments: Arguments, argument: seq<byte>)
    requires argument in arguments
    ensures forall b :: b in argument ==> b in Joined(arguments)
  {
    if argument != arguments[0] {
      assert argument in arguments[1..];
      JoinedHolds(arguments[1..], argument);
    }
  }

  /** Each argument between quote marks, with a space in front. */
  function QuotedWords(arguments: Arguments): seq<Word> {
    if arguments == [] then [] else [Word(1, [Segment(true, arguments[0])])] + QuotedWords(arguments[1..])
  }

  lemma QuotedWord(argument: seq<byte>)
    requires argument != [] && QUOTE !in argument
    ensures var word := Word(1, [Segment(true, argument)]);
            WellSpelled(word) && Content(word.segments) == argument
  {
    var segments := [Segment(true, argument)];
    assert segments[1..] == [];
    assert Content(segments) == argument + [] == argument;
  }

  lemma {:induction false} QuotedWordsSpell(arguments: Arguments)
    requires forall a :: a in arguments ==> a != [] && QUOTE !in a
    ensures forall word :: word in QuotedWords(arguments) ==> WellSpelled(word) && word.gap == 1
    ensures Contents(QuotedWords(arguments)) == arguments
  {
    if arguments != [] {
      assert arguments[0] in arguments;
      assert forall a :: a in arguments[1..] ==> a in arguments;
      QuotedWord(arguments[0]);
      QuotedWordsSpell(arguments[1..]);
      assert QuotedWords(arguments)[1..] == QuotedWords(arguments[1..]);
      assert [arguments[0]] + arguments[1..] == arguments;
    }
  }

  /**
   The range of the tokenizer, exactly: some text yields these arguments if and only if none of
   them is empty or holds a quote mark.
   */
  lemma {:induction false} TokensExactly(arguments: Arguments)
    ensures (exists text :: !OpensAtEnd(text) && Tokens(text) == arguments) <==>
            forall a :: a in arguments ==> a != [] && QUOTE !in a
  {
    if text :| !OpensAtEnd(text) && Tokens(text) == arguments {
      TokensConserve(text);
      NoQuoteKept(text, false);
      forall a | a in arguments ensures a != [] && QUOTE !in a {
        JoinedHolds(arguments, a);
      }
    }
    if forall a :: a in arguments ==> a != [] && QUOTE !in a {
      var words := QuotedWords(arguments);
      QuotedWordsSpell(arguments);
      assert forall i :: 0 <= i < |words| ==> words[i] in words;
      TokensReadBack(words, 0);
    }
  }

  // ---- The printed command, read by the decoder ----

  function Bulks(arguments: Arguments): (items: seq<Value>)
    ensures |items| == |arguments|
    ensures AllErrorFree(items)
  {
    if arguments == [] then [] else [Bulk(arguments[0])] + Bulks(arguments[1..])
  }

  /** Lengths that fit the decoder's 64-bit headers. */
  predicate Sendable(arguments: Arguments) {
    FitsInt64(|arguments|) && forall argument :: argument in arguments ==> FitsInt64(|argument|)
  }

  lemma {:induction false} ArgumentListIsEncoding(arguments: Arguments)
    ensures ArgumentList(arguments) == EncodeAll(Bulks(arguments))
    ensures (forall argument :: argument in arguments ==> FitsInt64(|argument|)) ==> AllEncodable(Bulks(arguments))
  {
    if arguments != [] {
      ArgumentListIsEncoding(arguments[1..]);
    }
  }

  lemma SerializeIsEncoding(arguments: Arguments)
    requires |arguments| >= 2
    ensures Serialize(arguments) == Encode(Array(Bulks(arguments)))
    ensures Sendable(arguments) ==> Encodable(Array(Bulks(arguments)))
  {
    ArgumentListIsEncoding(arguments);
  }

  /** The printed forms, character by character. */
  lemma PrintedForms(x: seq<byte>, arguments: Arguments)
    requires |arguments| >= 2
    ensures Serialize([]) == []
    ensures Serialize([x]) == x + ['\r' as int, '\n' as int]
    ensures Serialize(arguments) ==
            ['*' as int] + ToString(|arguments|) + ['\r' as int, '\n' as int] + EncodeAll(Bulks(arguments))
  {
    ArgumentListIsEncoding(arguments);
  }

  /** An inline command is shorter than any array holding its argument. */
  lemma InlineIsTooShort(arguments: Arguments)
    requires |arguments| == 1
    ensures Footprint(Array(Bulks(arguments))) > |Serialize(arguments)|
  {
    var items := Bulks(arguments);
    assert items[0] == Bulk(arguments[0]) && items[1..] == [];
    assert FootprintIn(items) == |arguments[0]| + 5;
  }

  /**
   In front of any bytes, a printed command is decoded to the array of its arguments, and the
   iterator stops behind it, if and only if it has at least two arguments.
   */
  lemma {:induction false} CommandRoundTrip(arguments: Arguments, tail: seq<byte>)
    requires Sendable(arguments)
    ensures |arguments| >= 2 <==>
            Parse(Serialize(arguments) + tail) == Parsed(Array(Bulks(arguments)), NoError, tail)
  {
    var s := Serialize(arguments) + tail;
    if |arguments| >= 2 {
      SerializeIsEncoding(arguments);
      RoundTrip(Array(Bulks(arguments)), tail);
    } else {
      if |arguments| == 1 {
        InlineIsTooShort(arguments);
      }
      if s != [] && Parse(s).Parsed? {
        ParseProgress(s);
      }
    }
  }

  /** From text to the wire and back: well-spaced text comes back as the arguments it spells. */
  lemma {:induction false} TextRoundTrip(words: seq<Word>, trailing: nat, tail: seq<byte>)
    requires WellSpaced(words) && |words| >= 2 && Sendable(Contents(words))
    ensures Parse(Serialize(Tokens(Text(words, trailing))) + tail) ==
            Parsed(Array(Bulks(Contents(words))), NoError, tail)
  {
    TokensReadBack(words, trailing);
    ContentsCount(words);
    CommandRoundTrip(Contents(words), tail);
  }

  lemma {:induction false} ContentsCount(words: seq<Word>)
    ensures |Contents(words)| == |words|
  {
    if words != [] {
      ContentsCount(words[1..]);
    }
  }
}
