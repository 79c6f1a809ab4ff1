/**
 * `_chunk_text`: sentence splitting, greedy packing of sentences into
 * chunks with a word overlap between consecutive chunks, hard truncation
 * of an oversize sentence, and the final minimum-length filter.
 */
module Chunking {
  import opened PyStr
  import opened SeqFacts

  /** Defaults of `max_chunk_size` and `overlap`. */
  const DefaultMaxChunkSize: int := 1500
  const DefaultOverlap: int := 200

  /** Chunks whose stripped length is at most this many characters are dropped. */
  const MinChunkLength: nat := 50

  predicate IsTerminator(c: char)
  {
    c == '.' || c == '!' || c == '?'
  }

  predicate NoTerminator(s: string)
  {
    forall c :: c in s ==> !IsTerminator(c)
  }

  /**
   * `text.replace("!", ".").replace("?", ".")`: every sentence terminator
   * becomes a full stop and every other character is kept.
   */
  function UnifyTerminators(text: string): (r: string)
    ensures |r| == |text|
    ensures forall i :: 0 <= i < |r| ==> r[i] == if IsTerminator(text[i]) then '.' else text[i]
    ensures forall c :: c in r ==> c != '!' && c != '?'
  {
    seq(|text|, i requires 0 <= i < |text| => if IsTerminator(text[i]) then '.' else text[i])
  }

  /**
   * A sentence as the splitter produces it: a non-empty body with no
   * terminator and no surrounding whitespace, followed by one '.'.
   */
  predicate IsSentence(s: string)
  {
    && |s| >= 2
    && s[|s| - 1] == '.'
    && !IsSpace(s[0])
    && !IsSpace(s[|s| - 2])
    && NoTerminator(s[..|s| - 1])
  }

  /** `[p.strip() + "." for p in pieces if p.strip()]` */
  function SentencesOf(pieces: seq<string>): (ss: seq<string>)
    ensures |ss| <= |pieces|
  {
    if pieces == [] then []
    else
      var body := Strip(pieces[0]);
      if body != [] then [body + "."] + SentencesOf(pieces[1..]) else SentencesOf(pieces[1..])
  }

  /** A piece without terminators, once stripped and closed with '.', is a sentence. */
  lemma StrippedPieceIsSentence(piece: string)
    requires NoTerminator(piece) && Strip(piece) != []
    ensures IsSentence(Strip(piece) + ".")
  {
    var body := Strip(piece);
    assert (body + ".")[..|body|] == body;
  }

  /** Every element built from terminator-free pieces is a sentence. */
  lemma {:induction false} SentencesOfShape(pieces: seq<string>)
    requires forall p :: p in pieces ==> NoTerminator(p)
    ensures forall s :: s in SentencesOf(pieces) ==> IsSentence(s)
  {
    if pieces != [] {
      assert pieces[0] in pieces;
      assert forall p :: p in pieces[1..] ==> p in pieces;
      SentencesOfShape(pieces[1..]);
      if Strip(pieces[0]) != [] {
        StrippedPieceIsSentence(pieces[0]);
      }
    }
  }

  /** The sentences of `text`, in order (rag_logic.py:35-36). */
  function Sentences(text: string): (ss: seq<string>)
    ensures forall s :: s in ss ==> IsSentence(s)
  {
    var pieces := SplitOn(UnifyTerminators(text), '.');
    SentencesOfShape(pieces);
    SentencesOf(pieces)
  }

  /** A text with no terminator at all is one sentence, closed with a '.'. */
  lemma SentencesWithoutTerminator(text: string)
    requires NoTerminator(text) && !AllSpace(text)
    ensures Sentences(text) == [Strip(text) + "."]
  {
    var unified := UnifyTerminators(text);
    assert unified == text by {
      forall i | 0 <= i < |text| ensures unified[i] == text[i] {
        assert text[i] in text;
      }
    }
    assert '.' !in text;
    assert SplitOn(text, '.') == [text];
  }

  /** The state of the packing loop: the chunks closed so far and the open buffer. */
  datatype Packer = Packer(chunks: seq<string>, current: string)

  /**
   * The words carried from a closed buffer into the next one:
   * `words[-overlap // 10:] if len(words) > overlap // 10 else []`,
   * with Python's floor division and negative slice start.
   */
  function OverlapWords(words: seq<string>, overlap: int): (tail: seq<string>)
    ensures |tail| <= |words| && tail == words[|words| - |tail|..]
    ensures |words| <= overlap / 10 ==> tail == []
  {
    if |words| > overlap / 10 then words[SliceBound((-overlap) / 10, |words|)..] else []
  }

  /**
   * For a non-negative overlap, provided there are more than `overlap // 10`
   * words, the number carried is `ceil(overlap / 10)`, or all of them when
   * there are fewer; an overlap of 0 carries every word, since Python reads
   * the slice start `-0` as 0.
   */
  lemma OverlapWordsCount(words: seq<string>, overlap: int)
    requires 0 <= overlap && |words| > overlap / 10
    ensures var k := (overlap + 9) / 10;
      |OverlapWords(words, overlap)| == if k == 0 || |words| < k then |words| else k
  {
    var k := (overlap + 9) / 10;
    var q, r := (-overlap) / 10, (-overlap) % 10;
    assert -overlap == 10 * q + r && 0 <= r < 10;
    assert overlap + 9 == 10 * (-q) + (9 - r);
    assert k == -q;
  }

  /** With the default overlap of 200, the last 20 words are carried, if there are more than 20. */
  lemma DefaultOverlapWords(words: seq<string>)
    ensures OverlapWords(words, DefaultOverlap) == if |words| > 20 then words[|words| - 20..] else []
  {
  }

  /** One iteration of the packing loop over `sentence` (rag_logic.py:40-51). */
  function Step(p: Packer, sentence: string, maxChunkSize: int, overlap: int): (q: Packer)
    ensures |q.chunks| == |p.chunks| + if |p.current| + |sentence| > maxChunkSize then 1 else 0
    ensures q.chunks[..|p.chunks|] == p.chunks
  {
    if |p.current| + |sentence| > maxChunkSize then
      if p.current != "" then
        var overlapText := Join(" ", OverlapWords(Words(p.current), overlap));
        Packer(p.chunks + [Strip(p.current)],
               if overlapText != "" then Strip(overlapText + " " + sentence) else sentence)
      else
        var cut := SliceBound(maxChunkSize, |sentence|);
        Packer(p.chunks + [sentence[..cut]], sentence[cut..])
    else
      Packer(p.chunks, if p.current != "" then Strip(p.current + " " + sentence) else sentence)
  }

  /** The loop state after the given sentences, starting from no chunks and an empty buffer. */
  function Pack(sentences: seq<string>, maxChunkSize: int, overlap: int): (p: Packer)
    ensures |p.chunks| <= |sentences|
  {
    if sentences == [] then Packer([], "")
    else Step(Pack(sentences[..|sentences| - 1], maxChunkSize, overlap), sentences[|sentences| - 1], maxChunkSize, overlap)
  }

  /** The trailing buffer, stripped, closes the last chunk unless it is blank (rag_logic.py:52-53). */
  function Flush(p: Packer): (chunks: seq<string>)
    ensures |chunks| == |p.chunks| + if AllSpace(p.current) then 0 else 1
    ensures chunks[..|p.chunks|] == p.chunks
    ensures !AllSpace(p.current) ==> chunks[|p.chunks|] == Strip(p.current)
  {
    if Strip(p.current) != "" then p.chunks + [Strip(p.current)] else p.chunks
  }

  /** `[c for c in chunks if len(c.strip()) > 50]` */
  function KeepSubstantial(chunks: seq<string>): (kept: seq<string>)
    ensures |kept| <= |chunks|
  {
    if chunks == [] then []
    else if |Strip(chunks[0])| > MinChunkLength then [chunks[0]] + KeepSubstantial(chunks[1..])
    else KeepSubstantial(chunks[1..])
  }

  /**
   * The filter keeps exactly the chunks whose stripped length exceeds 50:
   * everything kept was there and is long enough, and nothing long enough
   * is dropped.
   */
  lemma {:induction false} KeepSubstantialMembers(chunks: seq<string>)
    ensures forall c :: c in KeepSubstantial(chunks) ==> c in chunks && |Strip(c)| > MinChunkLength
    ensures forall c :: c in chunks && |Strip(c)| > MinChunkLength ==> c in KeepSubstantial(chunks)
  {
    if chunks != [] {
      KeepSubstantialMembers(chunks[1..]);
      assert forall c :: c in chunks ==> c == chunks[0] || c in chunks[1..];
    }
  }

  /** The filter keeps the order of the chunks it keeps: it distributes over concatenation. */
  lemma {:induction false} KeepSubstantialAppend(a: seq<string>, b: seq<string>)
    ensures KeepSubstantial(a + b) == KeepSubstantial(a) + KeepSubstantial(b)
  {
    if a != [] {
      assert (a + b)[0] == a[0];
      assert (a + b)[1..] == a[1..] + b;
      KeepSubstantialAppend(a[1..], b);
    } else {
      assert a + b == b;
    }
  }

  /** `_chunk_text(text, max_chunk_size, overlap)` */
  function ChunkSpec(text: string, maxChunkSize: int, overlap: int): (chunks: seq<string>)
    ensures AllSpace(text) ==> chunks == []
    ensures forall c :: c in chunks ==> |Strip(c)| > MinChunkLength
  {
    if text == "" || Strip(text) == "" then []
    else
      KeepSubstantialMembers(Flush(Pack(Sentences(text), maxChunkSize, overlap)));
      KeepSubstantial(Flush(Pack(Sentences(text), maxChunkSize, overlap)))
  }

  /** `_chunk_text`, as the loop over the sentences that the source runs. */
  method ChunkText(text: string, maxChunkSize: int, overlap: int) returns (chunks: seq<string>)
    ensures chunks == ChunkSpec(text, maxChunkSize, overlap)
    ensures forall c :: c in chunks ==> |Strip(c)| > MinChunkLength
  {
    if text == "" || Strip(text) == "" {
      return [];
    }
    var sentences := Sentences(text);
    var built: seq<string> := [];
    var current := "";
    for i := 0 to |sentences|
      invariant Packer(built, current) == Pack(sentences[..i], maxChunkSize, overlap)
    {
      built, current := PackSentence(built, current, sentences[i], maxChunkSize, overlap);
      PrefixStep(sentences, i);
    }
    PrefixAll(sentences);
    if Strip(current) != "" {
      built := built + [Strip(current)];
    }
    chunks := KeepSubstantial(built);
  }

  /** The body of the sentence loop of `_chunk_text`: one sentence packed. */
  method PackSentence(built: seq<string>, current: string, sentence: string, maxChunkSize: int, overlap: int)
    returns (built': seq<string>, current': string)
    ensures Packer(built', current') == Step(Packer(built, current), sentence, maxChunkSize, overlap)
  {
    built', current' := built, current;
    if |current| + |sentence| > maxChunkSize {
      if current != "" {
        built' := built + [Strip(current)];
        var overlapText := Join(" ", OverlapWords(Words(current), overlap));
        current' := if overlapText != "" then Strip(overlapText + " " + sentence) else sentence;
      } else {
        var cut := SliceBound(maxChunkSize, |sentence|);
        built' := built + [sentence[..cut]];
        current' := sentence[cut..];
      }
    } else {
      current' := if current != "" then Strip(current + " " + sentence) else sentence;
    }
  }

  /**
   * When a sentence fits, no chunk is closed and the buffer's words are
   * the previous buffer's words followed by the sentence's.
   */
  lemma StepAppends(p: Packer, sentence: string, maxChunkSize: int, overlap: int)
    requires |p.current| + |sentence| <= maxChunkSize
    ensures Step(p, sentence, maxChunkSize, overlap).chunks == p.chunks
    ensures Words(Step(p, sentence, maxChunkSize, overlap).current) == Words(p.current) + Words(sentence)
  {
    var q := Step(p, sentence, maxChunkSize, overlap);
    if p.current != "" {
      var joined := p.current + " " + sentence;
      assert q.current == Strip(joined);
      WordsOfStrip(joined);
      WordsAroundSpace(p.current, sentence);
    } else {
      assert q.current == sentence;
      assert Words(p.current) == [];
      ConcatEmptyLeft(Words(sentence));
    }
  }

  /**
   * When a sentence overflows a non-empty buffer, the buffer is closed as
   * its stripped text, and the next buffer is the closed chunk's last words
   * (if it had more than `overlap // 10` of them), one space, then the
   * sentence; its words are the carried words followed by the sentence's.
   */
  lemma StepCloses(p: Packer, sentence: string, maxChunkSize: int, overlap: int)
    requires |p.current| + |sentence| > maxChunkSize && p.current != ""
    requires sentence != [] && sentence[|sentence| - 1] == '.'
    ensures Step(p, sentence, maxChunkSize, overlap).chunks == p.chunks + [Strip(p.current)]
    ensures Step(p, sentence, maxChunkSize, overlap).current
      == if OverlapWords(Words(Strip(p.current)), overlap) == [] then sentence
         else Join(" ", OverlapWords(Words(Strip(p.current)), overlap)) + " " + sentence
    ensures Words(Step(p, sentence, maxChunkSize, overlap).current)
      == OverlapWords(Words(Strip(p.current)), overlap) + Words(sentence)
  {
    WordsOfStrip(p.current);
    ClosedBuffer(p, sentence, maxChunkSize, overlap);
    ClosedBufferWords(p, sentence, maxChunkSize, overlap);
  }

  /** The text of the buffer that follows a close. */
  lemma ClosedBuffer(p: Packer, sentence: string, maxChunkSize: int, overlap: int)
    requires |p.current| + |sentence| > maxChunkSize && p.current != ""
    requires sentence != [] && sentence[|sentence| - 1] == '.'
    ensures var tail := OverlapWords(Words(p.current), overlap);
      Step(p, sentence, maxChunkSize, overlap).current
        == if tail == [] then sentence else Join(" ", tail) + " " + sentence
  {
    var words := Words(p.current);
    var tail := OverlapWords(words, overlap);
    if tail != [] {
      var overlapText := Join(" ", tail);
      var first := tail[0];
      assert first in words;
      PrefixFirst(overlapText, first);
      var x := overlapText + " " + sentence;
      EndsOfAppend(overlapText + " ", sentence);
      EndsOfAppend(overlapText, " ");
      StripFixed(x);
    }
  }

  /** The words of the buffer that follows a close: the carried words, then the sentence's. */
  lemma ClosedBufferWords(p: Packer, sentence: string, maxChunkSize: int, overlap: int)
    requires |p.current| + |sentence| > maxChunkSize && p.current != ""
    requires sentence != [] && sentence[|sentence| - 1] == '.'
    ensures var tail := OverlapWords(Words(p.current), overlap);
      Words(Step(p, sentence, maxChunkSize, overlap).current) == tail + Words(sentence)
  {
    var words := Words(p.current);
    var tail := OverlapWords(words, overlap);
    ClosedBuffer(p, sentence, maxChunkSize, overlap);
    if tail != [] {
      assert forall w :: w in tail ==> w in words;
      WordsOfJoin(tail);
      WordsAroundSpace(Join(" ", tail), sentence);
    } else {
      ConcatEmptyLeft(Words(sentence));
    }
  }

  /**
   * When a sentence alone is longer than the limit and the buffer is empty,
   * the sentence is cut at the limit: the first piece is closed, the rest
   * becomes the buffer, and the two pieces give back the sentence.
   */
  lemma StepTruncates(p: Packer, sentence: string, maxChunkSize: int, overlap: int)
    requires p.current == "" && 0 <= maxChunkSize < |sentence|
    ensures var q := Step(p, sentence, maxChunkSize, overlap);
      && |q.chunks| == |p.chunks| + 1
      && q.chunks[..|p.chunks|] == p.chunks
      && |q.chunks[|p.chunks|]| == maxChunkSize
      && q.chunks[|p.chunks|] + q.current == sentence
  {
    var q := Step(p, sentence, maxChunkSize, overlap);
    assert q.chunks[|p.chunks|] == sentence[..maxChunkSize];
  }

  /**
   * No length bound holds for the buffer: joining two pieces whose lengths
   * add up to exactly the limit gives a buffer one character longer.
   */
  lemma BufferMayExceedLimit(p: Packer, sentence: string, maxChunkSize: int, overlap: int)
    requires IsSentence(sentence) && p.current != ""
    requires !IsSpace(p.current[0]) && |p.current| + |sentence| == maxChunkSize
    ensures |Step(p, sentence, maxChunkSize, overlap).current| == maxChunkSize + 1
  {
    StripFixed(p.current + " " + sentence);
  }

  /**
   * While every sentence fits into the buffer, no chunk is closed and the
   * buffer holds all the sentences' words, in order.
   */
  lemma {:induction false} PackWithinLimit(sentences: seq<string>, maxChunkSize: int, overlap: int)
    requires EachFits(sentences, maxChunkSize, overlap)
    ensures Pack(sentences, maxChunkSize, overlap).chunks == []
    ensures Words(Pack(sentences, maxChunkSize, overlap).current) == AllWords(sentences)
  {
    if sentences != [] {
      var n := |sentences| - 1;
      var init := sentences[..n];
      EachFitsInit(sentences, maxChunkSize, overlap);
      PackWithinLimit(init, maxChunkSize, overlap);
      InitLast(sentences);
      PackFits(init, sentences[n], maxChunkSize, overlap);
      AllWordsSnoc(init, sentences[n]);
    } else {
      assert Words("") == [];
    }
  }

  /** Every sentence fits into the buffer packed from the sentences before it. */
  predicate EachFits(sentences: seq<string>, maxChunkSize: int, overlap: int)
  {
    forall i :: 0 <= i < |sentences| ==>
      |Pack(sentences[..i], maxChunkSize, overlap).current| + |sentences[i]| <= maxChunkSize
  }

  /** If every sentence fits, so does every sentence of a prefix, and the last one. */
  lemma EachFitsInit(sentences: seq<string>, maxChunkSize: int, overlap: int)
    requires sentences != [] && EachFits(sentences, maxChunkSize, overlap)
    ensures EachFits(sentences[..|sentences| - 1], maxChunkSize, overlap)
    ensures |Pack(sentences[..|sentences| - 1], maxChunkSize, overlap).current| + |sentences[|sentences| - 1]|
      <= maxChunkSize
  {
    var n := |sentences| - 1;
    var init := sentences[..n];
    forall i | 0 <= i < n
      ensures |Pack(init[..i], maxChunkSize, overlap).current| + |init[i]| <= maxChunkSize
    {
      PrefixOfPrefix(sentences, n, i);
      assert |Pack(sentences[..i], maxChunkSize, overlap).current| + |sentences[i]| <= maxChunkSize;
    }
  }

  /** Packing one more sentence that fits closes nothing and appends its words. */
  lemma PackFits(init: seq<string>, last: string, maxChunkSize: int, overlap: int)
    requires |Pack(init, maxChunkSize, overlap).current| + |last| <= maxChunkSize
    ensures Pack(init + [last], maxChunkSize, overlap).chunks == Pack(init, maxChunkSize, overlap).chunks
    ensures Words(Pack(init + [last], maxChunkSize, overlap).current)
      == Words(Pack(init, maxChunkSize, overlap).current) + Words(last)
  {
    var s := init + [last];
    assert s[..|s| - 1] == init && s[|s| - 1] == last;
    StepAppends(Pack(init, maxChunkSize, overlap), last, maxChunkSize, overlap);
  }

  /**
   * A text whose sentences all fit into one buffer gives at most one
   * chunk, and that chunk holds every word of the sentences, in order.
   */
  lemma ChunkSpecWithinLimit(text: string, maxChunkSize: int, overlap: int)
    requires EachFits(Sentences(text), maxChunkSize, overlap)
    ensures |ChunkSpec(text, maxChunkSize, overlap)| <= 1
    ensures ChunkSpec(text, maxChunkSize, overlap) != [] ==>
      Words(ChunkSpec(text, maxChunkSize, overlap)[0]) == AllWords(Sentences(text))
  {
    if text != "" && Strip(text) != "" {
      PackWithinLimit(Sentences(text), maxChunkSize, overlap);
      var p := Pack(Sentences(text), maxChunkSize, overlap);
      FlushOpenBufferOnly(p);
      WordsOfStrip(p.current);
    }
  }

  /** With no chunk closed, the result is at most the stripped buffer. */
  lemma FlushOpenBufferOnly(p: Packer)
    requires p.chunks == []
    ensures |KeepSubstantial(Flush(p))| <= 1
    ensures KeepSubstantial(Flush(p)) != [] ==> KeepSubstantial(Flush(p))[0] == Strip(p.current)
  {
    var flushed := Flush(p);
    var kept := KeepSubstantial(flushed);
    if kept != [] {
      KeepSubstantialMembers(flushed);
      assert kept[0] in flushed;
    }
  }
}
