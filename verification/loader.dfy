/** The image loader `read_program`: a big-endian origin word followed by big-endian
    words that are stored from the origin upwards. The file is given as its bytes;
    every read of the two-byte buffer is taken to return as many bytes as remain,
    up to two. */
module Loader {
  import opened Words
  import opened Machine

  /** The origin as read by the first two-byte read: a short read is not rejected,
      and the buffer bytes it did not fill stay 0. */
  function Origin(image: seq<Byte>): (o: Word)
    ensures |image| >= 2 ==> o == image[0] as int * 256 + image[1] as int
    ensures |image| == 1 ==> o == image[0] as int * 256
    ensures |image| == 0 ==> o == 0
  {
    SwapEndian(if |image| > 0 then image[0] else 0, if |image| > 1 then image[1] else 0)
  }

  /** The bytes after the origin. */
  function Body(image: seq<Byte>): seq<Byte> {
    if |image| < 2 then [] else image[2..]
  }

  /** The body read two bytes at a time, each pair a big-endian word; None when an
      odd byte is left over, which the source's loop reads alone and panics on. */
  function Pairs(body: seq<Byte>): Option<seq<Word>>
    decreases |body|
  {
    if |body| == 0 then Some([])
    else if |body| == 1 then None
    else
      match Pairs(body[2..])
      case None => None
      case Some(rest) => Some([SwapEndian(body[0], body[1])] + rest)
  }

  /** The words stored from origin upwards, origin advancing with a wrapping `+ 1`. */
  function StoreWords(mem: Memory, origin: Word, words: seq<Word>): Memory
    decreases |words|
  {
    if |words| == 0 then mem
    else StoreWords(mem[origin := words[0]], WrappingAdd(origin, 1), words[1..])
  }

  /** The loop of `read_program` after the origin: every full pair is stored, and an
      odd trailing byte is fatal. The pairs are decoded before they are stored; since
      the panic discards the machine, the order cannot be told apart. */
  function LoadWords(mem: Memory, origin: Word, body: seq<Byte>): (r: Result<Memory>)
    ensures r.Err? ==> r.error == TruncatedImage
  {
    match Pairs(body)
    case None => Err(TruncatedImage)
    case Some(words) => Ok(StoreWords(mem, origin, words))
  }

  /** `read_program`: the origin, then the body. */
  function ReadProgram(mem: Memory, image: seq<Byte>): (r: Result<Memory>)
    ensures r.Err? ==> r.error == TruncatedImage
  {
    LoadWords(mem, Origin(image), Body(image))
  }

  /** Decoding fails exactly on an odd body, and otherwise yields half as many words. */
  lemma {:induction false} PairsOk(body: seq<Byte>)
    ensures Pairs(body).Some? <==> |body| % 2 == 0
    ensures Pairs(body).Some? ==> |Pairs(body).value| == |body| / 2
    decreases |body|
  {
    if |body| >= 2 {
      var tail := body[2..];
      PairsOk(tail);
      assert Pairs(body) == if Pairs(tail).None? then None
                            else Some([SwapEndian(body[0], body[1])] + Pairs(tail).value);
    }
  }

  /** An even body of at least two bytes decodes to its first pair followed by the
      decoding of the rest. */
  lemma PairsCons(body: seq<Byte>)
    requires |body| >= 2 && |body| % 2 == 0
    ensures Pairs(body[2..]).Some?
    ensures Pairs(body) == Some([SwapEndian(body[0], body[1])] + Pairs(body[2..]).value)
  {
    PairsOk(body[2..]);
  }

  /** Word i of an even body is the pair b[2i], b[2i+1] read big-endian. */
  lemma {:induction false} PairsAt(body: seq<Byte>, i: nat)
    requires |body| % 2 == 0 && 2 * i + 1 < |body|
    ensures Pairs(body).Some? && i < |Pairs(body).value|
    ensures Pairs(body).value[i] == SwapEndian(body[2 * i], body[2 * i + 1])
    decreases |body|
  {
    PairsOk(body);
    PairsCons(body);
    var tail := body[2..];
    var rest := Pairs(tail).value;
    if i > 0 {
      var j := i - 1;
      PairsAt(tail, j);
      assert rest[j] == SwapEndian(body[2 * i], body[2 * i + 1]) by {
        assert 2 * j + 2 == 2 * i;
        assert tail[2 * j] == body[2 * i] && tail[2 * j + 1] == body[2 * i + 1];
      }
      assert Pairs(body).value[i] == rest[j];
    }
  }

  /** A cell at least as many steps past the origin as there are words keeps its value. */
  lemma {:induction false} StoreWordsFrame(mem: Memory, origin: Word, words: seq<Word>, a: Word)
    requires Distance(origin, a) >= |words|
    ensures StoreWords(mem, origin, words)[a] == mem[a]
    decreases |words|
  {
    if |words| > 0 {
      DistanceStep(origin, a);
      StoreWordsFrame(mem[origin := words[0]], WrappingAdd(origin, 1), words[1..], a);
    }
  }

  /** Word i lands at origin + i, unless a later word wraps onto the same cell. */
  lemma {:induction false} StoreWordsAt(mem: Memory, origin: Word, words: seq<Word>, i: nat)
    requires i < |words| <= i + WordCount
    ensures StoreWords(mem, origin, words)[Address(origin, i)] == words[i]
    decreases |words|
  {
    var next := WrappingAdd(origin, 1);
    if i == 0 {
      DistanceStep(origin, origin);
      StoreWordsFrame(mem[origin := words[0]], next, words[1..], origin);
    } else {
      AddressStep(origin, i - 1);
      StoreWordsAt(mem[origin := words[0]], next, words[1..], i - 1);
    }
  }

  /** The loader fails exactly on a body with an odd trailing byte; otherwise body
      word i is at origin + i (mod 2^16), where among words that wrap onto the same
      cell the last one stays, and every cell no word reaches keeps its value. */
  lemma LoadWordsContents(mem: Memory, origin: Word, body: seq<Byte>)
    ensures LoadWords(mem, origin, body).Ok? <==> |body| % 2 == 0
    ensures LoadWords(mem, origin, body).Ok? ==>
              var out, n := LoadWords(mem, origin, body).value, |body| / 2;
              (forall i :: 0 <= i < n && n <= i + WordCount ==>
                 out[Address(origin, i)] == SwapEndian(body[2 * i], body[2 * i + 1])) &&
              (forall a: Word :: Distance(origin, a) >= n ==> out[a] == mem[a])
  {
    PairsOk(body);
    if |body| % 2 == 0 {
      var words := Pairs(body).value;
      forall i | 0 <= i < |words| && |words| <= i + WordCount
        ensures StoreWords(mem, origin, words)[Address(origin, i)] == SwapEndian(body[2 * i], body[2 * i + 1])
      {
        PairsAt(body, i);
        StoreWordsAt(mem, origin, words, i);
      }
      forall a: Word | Distance(origin, a) >= |words|
        ensures StoreWords(mem, origin, words)[a] == mem[a]
      {
        StoreWordsFrame(mem, origin, words, a);
      }
    }
  }

  /** The loader in terms of the whole image: it fails exactly when the image has
      more than two bytes and an odd length; otherwise the body's words lie from the
      origin upwards and all other cells are untouched. */
  lemma ReadProgramContents(mem: Memory, image: seq<Byte>)
    ensures ReadProgram(mem, image).Err? <==> |image| > 2 && |image| % 2 == 1
    ensures ReadProgram(mem, image).Ok? ==>
              var out, n, o := ReadProgram(mem, image).value, |Body(image)| / 2, Origin(image);
              (forall i :: 0 <= i < n && n <= i + WordCount ==>
                 out[Address(o, i)] == SwapEndian(image[2 * i + 2], image[2 * i + 3])) &&
              (forall a: Word :: Distance(o, a) >= n ==> out[a] == mem[a])
  {
    var body, o := Body(image), Origin(image);
    LoadWordsContents(mem, o, body);
    if |image| >= 2 && |image| % 2 == 0 {
      assert body == image[2..];
      var out, n := ReadProgram(mem, image).value, |body| / 2;
      forall i | 0 <= i < n && n <= i + WordCount
        ensures out[Address(o, i)] == SwapEndian(image[2 * i + 2], image[2 * i + 3])
      {
        assert body[2 * i] == image[2 * i + 2] && body[2 * i + 1] == image[2 * i + 3];
      }
    }
  }

  /** The program image of `words` loaded at `origin`. */
  function Image(origin: Word, words: seq<Word>): (image: seq<Byte>)
    ensures |image| == 2 + 2 * |words|
  {
    BigEndian(origin) + Encode(words)
  }

  function Encode(words: seq<Word>): (bytes: seq<Byte>)
    ensures |bytes| == 2 * |words|
  {
    if |words| == 0 then [] else BigEndian(words[0]) + Encode(words[1..])
  }

  /** Decoding the pairs of an encoding gives the words back. */
  lemma {:induction false} PairsEncode(words: seq<Word>)
    ensures Pairs(Encode(words)) == Some(words)
    decreases |words|
  {
    if |words| > 0 {
      var e := Encode(words);
      PairsEncode(words[1..]);
      assert e[2..] == Encode(words[1..]);
      assert Pairs(e) == Some([SwapEndian(e[0], e[1])] + words[1..]);
      SwapEndianRoundTrip(words[0], 0, 0);
      assert words == [words[0]] + words[1..];
    }
  }

  /** Loading the image of at most 2^16 words stores exactly those words from the
      origin upwards and leaves every other cell alone. */
  lemma ReadProgramRoundTrip(mem: Memory, origin: Word, words: seq<Word>)
    requires |words| <= WordCount
    ensures ReadProgram(mem, Image(origin, words)).Ok?
    ensures var out := ReadProgram(mem, Image(origin, words)).value;
            (forall i :: 0 <= i < |words| ==> out[Address(origin, i)] == words[i]) &&
            (forall a: Word :: Distance(origin, a) >= |words| ==> out[a] == mem[a])
  {
    var image := Image(origin, words);
    assert Body(image) == Encode(words);
    SwapEndianRoundTrip(origin, 0, 0);
    assert Origin(image) == origin;
    PairsEncode(words);
    forall i | 0 <= i < |words|
      ensures StoreWords(mem, origin, words)[Address(origin, i)] == words[i]
    {
      StoreWordsAt(mem, origin, words, i);
    }
    forall a: Word | Distance(origin, a) >= |words|
      ensures StoreWords(mem, origin, words)[a] == mem[a]
    {
      StoreWordsFrame(mem, origin, words, a);
    }
  }

  /** A four-byte image for origin 0x3000 stores its one word there and nothing else;
      one byte more makes it fail. */
  lemma OneWordImage(mem: Memory, hi: Byte, lo: Byte, extra: Byte)
    ensures ReadProgram(mem, [0x30, 0x00, hi, lo]).Ok?
    ensures ReadProgram(mem, [0x30, 0x00, hi, lo]).value == mem[0x3000 := SwapEndian(hi, lo)]
    ensures ReadProgram(mem, [0x30, 0x00, hi, lo, extra]) == Err(TruncatedImage)
  {
    var image: seq<Byte> := [0x30, 0x00, hi, lo];
    var pair: seq<Byte> := [hi, lo];
    assert image[0] == 0x30 && image[1] == 0 && image[2..] == pair;
    assert Origin(image) == SwapEndian(0x30, 0) == 0x3000;
    assert Pairs(pair[2..]) == Some([]);
    var words: seq<Word> := [SwapEndian(hi, lo)];
    assert Pairs(pair) == Some(words + []);
    assert words + [] == words;
    assert StoreWords(mem, 0x3000, words) == StoreWords(mem[0x3000 := words[0]], 0x3001, words[1..]);
    var odd: seq<Byte> := [0x30, 0x00, hi, lo, extra];
    var tail: seq<Byte> := [hi, lo, extra];
    assert Body(odd) == tail;
    assert tail[2..] == [extra];
    assert Pairs(tail) == None;
  }
}
