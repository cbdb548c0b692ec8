/** From the bytes a terminal sends to the keys the console acts on. The escape codes are a few of the
    control sequences of ECMA-48, section 5.4. */
module Keys {
  import opened Terminal

  /** What `getchar` returns: a byte, or -1 at the end of the input. */
  type Code = x: int | -1 <= x < 256 witness 0

  const TAB: Code := 9
  const ENTER: Code := 10
  const ESCAPE: Code := 27
  const BRACKET: Code := 91
  const TILDE: Code := 126
  const BACKSPACE: Code := 127

  datatype Key = Char(c: Cell) | Tab | Enter | Backspace
    | Up | Down | Right | Left | Home | End | Delete | EndTilde

  /** A code outside an escape sequence: at most one key; other control codes are ignored. */
  function Plain(code: Code): (keys: seq<Key>)
    ensures |keys| <= 1
  {
    if code == TAB then [Tab]
    else if code == ENTER then [Enter]
    else if code == BACKSPACE then [Backspace]
    else if code >= 0x20 then [Char(code)]
    else []
  }

  /** The final byte of a two-byte sequence after the escape; page up and page down do nothing. */
  function Arrow(code: Code): (keys: seq<Key>)
    ensures |keys| <= 1
  {
    if code == 65 then [Up]
    else if code == 66 then [Down]
    else if code == 67 then [Right]
    else if code == 68 then [Left]
    else if code == 72 then [Home]
    else if code == 70 then [End]
    else []
  }

  predicate EndsSequence(code: Code) { code in {65, 66, 67, 68, 72, 70, 53, 54} }

  function Tilded(code: Code): Key { if code == 51 then Delete else EndTilde }

  predicate WantsTilde(code: Code) { code == 51 || code == 52 }

  /** How many codes the next step takes from the stream; 0 when they only begin an escape sequence.
      A code that does not fit the sequence is left to be read again on its own. */
  function Taken(codes: seq<Code>): (n: nat)
    requires codes != []
    ensures n <= |codes|
  {
    if codes[0] != ESCAPE then 1
    else if |codes| == 1 then 0
    else if codes[1] != BRACKET then 1
    else if |codes| == 2 then 0
    else if EndsSequence(codes[2]) then 3
    else if !WantsTilde(codes[2]) then 2
    else if |codes| == 3 then 0
    else if codes[3] == TILDE then 4
    else 3
  }

  /** The key, if any, that these codes make. */
  function Made(codes: seq<Code>): seq<Key>
    requires codes != []
  {
    match Taken(codes)
    case 1 => if codes[0] == ESCAPE then [] else Plain(codes[0])
    case 3 => Arrow(codes[2])
    case 4 => [Tilded(codes[2])]
    case _ => []
  }

  /** The keys in a stream of codes, and the codes left over at its end because they are the beginning of
      an escape sequence. */
  function Scan(codes: seq<Code>): (r: (seq<Key>, seq<Code>))
    decreases |codes|
  {
    if codes == [] || Taken(codes) == 0 then ([], codes)
    else
      var rest := Scan(codes[Taken(codes)..]);
      (Made(codes) + rest.0, rest.1)
  }

  function Decode(codes: seq<Code>): seq<Key> { Scan(codes).0 }

  function Unfinished(codes: seq<Code>): seq<Code> { Scan(codes).1 }

  /** Decoding can be cut anywhere: the second part continues from what the first left unfinished. In
      particular, where nothing is unfinished the two parts decode independently. */
  lemma {:induction false} DecodeInParts(a: seq<Code>, b: seq<Code>)
    ensures Decode(a + b) == Decode(a) + Decode(Unfinished(a) + b)
    ensures Unfinished(a + b) == Unfinished(Unfinished(a) + b)
    ensures Unfinished(a) == [] ==> Decode(a + b) == Decode(a) + Decode(b)
    decreases |a|
  {
    hide Taken, Made;
    assert [] + b == b;
    if a == [] {
      assert Decode([]) + Decode(b) == Decode(b);
    } else {
      var n := Taken(a);
      if n > 0 {
        SameStep(a, b);
        assert (a + b)[n..] == a[n..] + b;
        DecodeInParts(a[n..], b);
      } else {
        assert [] + Decode(a + b) == Decode(a + b);
      }
    }
  }

  lemma SameStep(a: seq<Code>, b: seq<Code>)
    requires a != [] && Taken(a) > 0
    ensures Taken(a + b) == Taken(a) && Made(a + b) == Made(a)
  {}

  function Encode(key: Key): seq<Code> {
    match key
    case Char(c) => [c]
    case Tab => [TAB]
    case Enter => [ENTER]
    case Backspace => [BACKSPACE]
    case Up => [ESCAPE, BRACKET, 65]
    case Down => [ESCAPE, BRACKET, 66]
    case Right => [ESCAPE, BRACKET, 67]
    case Left => [ESCAPE, BRACKET, 68]
    case Home => [ESCAPE, BRACKET, 72]
    case End => [ESCAPE, BRACKET, 70]
    case Delete => [ESCAPE, BRACKET, 51, TILDE]
    case EndTilde => [ESCAPE, BRACKET, 52, TILDE]
  }

  function EncodeAll(keys: seq<Key>): seq<Code> {
    if keys == [] then [] else Encode(keys[0]) + EncodeAll(keys[1..])
  }

  /** Every key has a code sequence, and a stream of these decodes to the keys it was made from. */
  lemma {:induction false} DecodeEncode(keys: seq<Key>, more: seq<Code>)
    ensures Decode(EncodeAll(keys) + more) == keys + Decode(more)
    ensures Unfinished(EncodeAll(keys) + more) == Unfinished(more)
  {
    hide Scan, Encode;
    if keys == [] {
      assert EncodeAll(keys) + more == more && keys + Decode(more) == Decode(more);
    } else {
      var rest := EncodeAll(keys[1..]) + more;
      DecodeEncode(keys[1..], more);
      assert EncodeAll(keys) + more == Encode(keys[0]) + rest;
      ScanOne(keys[0], rest);
      assert [keys[0]] + (keys[1..] + Decode(more)) == keys + Decode(more);
    }
  }

  lemma ScanOne(key: Key, rest: seq<Code>)
    ensures Decode(Encode(key) + rest) == [key] + Decode(rest)
    ensures Unfinished(Encode(key) + rest) == Unfinished(rest)
  {
    var codes := Encode(key) + rest;
    assert codes[|Encode(key)|..] == rest;
  }

  /** Only the beginning of an escape sequence ever waits for more. */
  lemma {:induction false} UnfinishedIsShort(codes: seq<Code>)
    ensures var u := Unfinished(codes);
      u == [] || u == [ESCAPE] || u == [ESCAPE, BRACKET] || u == [ESCAPE, BRACKET, 51] || u == [ESCAPE, BRACKET, 52]
    decreases |codes|
  {
    if codes != [] {
      var n := Taken(codes);
      if n > 0 {
        UnfinishedIsShort(codes[n..]);
      } else if |codes| == 1 {
        assert codes == [codes[0]];
      } else if |codes| == 2 {
        assert codes == [codes[0], codes[1]];
      } else {
        assert codes == [codes[0], codes[1], codes[2]];
      }
    }
  }

  // ---------------------------------------------------------------- codes that are no key's

  /** Control codes and the end of the input do nothing. */
  lemma ControlCodesIgnored(code: Code, rest: seq<Code>)
    requires code < 0x20 && code !in {9, 10, 27}
    ensures Decode([code] + rest) == Decode(rest)
  {
    assert ([code] + rest)[1..] == rest;
    assert [] + Decode(rest) == Decode(rest);
  }

  /** Page up and page down, 5 and 6 after the bracket, do nothing. The sequence ends at the digit, so the tilde
      such keys send after it is typed into the line. */
  lemma PageKeysEndAtDigit(digit: Code, rest: seq<Code>)
    requires digit in {53, 54}
    ensures Decode([27, 91, digit] + rest) == Decode(rest)
    ensures Decode([27, 91, digit, 126] + rest) == [Char(126)] + Decode(rest)
  {
    NothingMade([27, 91, digit], rest);
    NothingMade([27, 91, digit], [126] + rest);
    assert [27, 91, digit] + ([126] + rest) == [27, 91, digit, 126] + rest;
    ScanOne(Char(126), rest);
  }

  /** Where these codes come next, they are taken and make no key. */
  lemma NothingMade(codes: seq<Code>, rest: seq<Code>)
    requires codes != [] && Taken(codes + rest) == |codes| && Made(codes + rest) == []
    ensures Decode(codes + rest) == Decode(rest)
  {
    assert (codes + rest)[|codes|..] == rest;
    assert [] + Decode(rest) == Decode(rest);
  }

  /** A code that does not go on with the sequence is read again, as if the sequence had not begun. */
  lemma MisfitIsReadAgain(code: Code, rest: seq<Code>)
    ensures code != 91 ==> Decode([27, code] + rest) == Decode([code] + rest)
    ensures code !in {65, 66, 67, 68, 70, 72, 51, 52, 53, 54} ==>
      Decode([27, 91, code] + rest) == Decode([code] + rest)
    ensures code != 126 ==> Decode([27, 91, 51, code] + rest) == Decode([code] + rest)
    ensures code != 126 ==> Decode([27, 91, 52, code] + rest) == Decode([code] + rest)
  {
    hide Scan;
    var again := [code] + rest;
    assert [27] + again == [27, code] + rest;
    assert [27, 91] + again == [27, 91, code] + rest;
    assert [27, 91, 51] + again == [27, 91, 51, code] + rest;
    assert [27, 91, 52] + again == [27, 91, 52, code] + rest;
    if code != 91 { NothingMade([27], again); }
    if code !in {65, 66, 67, 68, 70, 72, 51, 52, 53, 54} { NothingMade([27, 91], again); }
    if code != 126 {
      NothingMade([27, 91, 51], again);
      NothingMade([27, 91, 52], again);
    }
  }
}
