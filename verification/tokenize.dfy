/** The character buffer of the tokenizer (lib/tokenize/src/tokenize/Stream.cpp).

    Several inputs are concatenated into one buffer. Each input leaves a
    delimiter: the offset in the buffer where it starts and its name. A cursor
    position is moved by `Seek` and `Reset`. An input stream is abstracted to
    the sequence of characters it yields. */
module Tokenize {

  /** Start offset and name of one input inside the buffer. */
  datatype Delimiter = Delimiter(position: nat, sectionName: string)

  datatype Stream = Stream(content: seq<char>, delimiters: seq<Delimiter>, position: nat)

  /** An input: a name and the characters it yields. */
  datatype Input = Input(name: string, characters: seq<char>)

  /** Delimiter offsets never decrease and never point past the buffer. */
  predicate Valid(s: Stream)
  {
    && (forall i, j :: 0 <= i <= j < |s.delimiters| ==> s.delimiters[i].position <= s.delimiters[j].position)
    && (forall i :: 0 <= i < |s.delimiters| ==> s.delimiters[i].position <= |s.content|)
  }

  /** A stream with nothing read yet. */
  function EmptyStream(): (s: Stream)
    ensures |s.content| == 0 && |s.delimiters| == 0 && s.position == 0
    ensures Valid(s)
  {
    Stream([], [], 0)
  }

  /** Appends the characters of `input` and one delimiter marking where they start. */
  function Read(s: Stream, input: Input): (r: Stream)
    ensures r.delimiters == s.delimiters + [Delimiter(|s.content|, input.name)]
    ensures s.content <= r.content && r.content[|s.content|..] == input.characters
    ensures r.position == s.position
    ensures Valid(s) ==> Valid(r)
  {
    s.(content := s.content + input.characters, delimiters := s.delimiters + [Delimiter(|s.content|, input.name)])
  }

  function Seek(s: Stream, position: nat): (r: Stream)
    ensures r.position == position
    ensures r.content == s.content && r.delimiters == s.delimiters
  {
    s.(position := position)
  }

  function Reset(s: Stream): (r: Stream)
    ensures r.position == 0
    ensures r.content == s.content && r.delimiters == s.delimiters
  {
    s.(position := 0)
  }

  function Position(s: Stream): nat
  {
    s.position
  }

  /** `Position` reports what `Seek` set, `Reset` is a seek to the start, and
      only the last of several seeks matters. */
  lemma SeekPosition(s: Stream, p: nat, q: nat)
    ensures Position(Seek(s, p)) == p
    ensures Position(Reset(s)) == 0 && Reset(s) == Seek(s, 0)
    ensures Seek(Seek(s, p), q) == Seek(s, q)
    ensures Seek(s, Position(s)) == s
  {
  }

  // Reading several inputs one after another.

  function ReadAll(s: Stream, inputs: seq<Input>): Stream
    decreases |inputs|
  {
    if |inputs| == 0 then s else ReadAll(Read(s, inputs[0]), inputs[1..])
  }

  function Concatenation(inputs: seq<Input>): seq<char>
    decreases |inputs|
  {
    if |inputs| == 0 then [] else inputs[0].characters + Concatenation(inputs[1..])
  }

  /** After reading `inputs` in order, the buffer is the old buffer followed by
      all their characters, the old delimiters are kept, and input `i` has a
      delimiter with its name at the total length read before it. The cursor
      does not move and validity is kept. */
  lemma {:induction false} ReadAllLayout(s: Stream, inputs: seq<Input>)
    decreases |inputs|
    ensures var r := ReadAll(s, inputs);
      && r.content == s.content + Concatenation(inputs)
      && |r.delimiters| == |s.delimiters| + |inputs|
      && r.delimiters[..|s.delimiters|] == s.delimiters
      && (forall i :: 0 <= i < |inputs| ==>
            r.delimiters[|s.delimiters| + i]
            == Delimiter(|s.content| + |Concatenation(inputs[..i])|, inputs[i].name))
      && r.position == s.position
      && (Valid(s) ==> Valid(r))
  {
    if |inputs| > 0 {
      var next := Read(s, inputs[0]);
      var rest := inputs[1..];
      ReadAllLayout(next, rest);
      var r := ReadAll(s, inputs);
      assert r == ReadAll(next, rest);
      assert r.content == s.content + Concatenation(inputs) by {
        assert next.content == s.content + inputs[0].characters;
      }
      assert r.delimiters[..|s.delimiters|] == s.delimiters by {
        assert r.delimiters[..|next.delimiters|] == next.delimiters;
        assert r.delimiters[..|s.delimiters|] == next.delimiters[..|s.delimiters|];
      }
      forall i | 0 <= i < |inputs|
        ensures r.delimiters[|s.delimiters| + i]
                == Delimiter(|s.content| + |Concatenation(inputs[..i])|, inputs[i].name)
      {
        if i == 0 {
          assert r.delimiters[|s.delimiters|] == next.delimiters[|s.delimiters|] by {
            assert r.delimiters[..|next.delimiters|] == next.delimiters;
          }
          assert inputs[..0] == [];
        } else {
          assert r.delimiters[|next.delimiters| + (i - 1)]
                 == Delimiter(|next.content| + |Concatenation(rest[..i - 1])|, rest[i - 1].name);
          assert inputs[..i][0] == inputs[0] && inputs[..i][1..] == rest[..i - 1];
          assert Concatenation(inputs[..i]) == inputs[0].characters + Concatenation(rest[..i - 1]);
        }
      }
    }
  }

  /** Reading from the empty stream puts input `i` at the offset equal to the
      total length of the inputs before it. */
  lemma ReadAllFromEmpty(inputs: seq<Input>)
    ensures var r := ReadAll(EmptyStream(), inputs);
      && r.content == Concatenation(inputs)
      && |r.delimiters| == |inputs|
      && (forall i :: 0 <= i < |inputs| ==>
            r.delimiters[i] == Delimiter(|Concatenation(inputs[..i])|, inputs[i].name))
      && Valid(r)
  {
    ReadAllLayout(EmptyStream(), inputs);
  }
}
