/** `chunk_text` from summary_generate.py: the words of a text packed greedily, in order,
    into chunks whose cost, `len(word) + 1` summed over the words, stays within the chunk
    size. The loop is `ChunkText`; `Pack` is the same fold over the words, on groups of words,
    and the lemmas below say what the groups and the chunks made from them look like. */
module Chunking {
  import opened Strings

  /** The cost the loop charges for a group: one more than each word's length. */
  function Cost(group: seq<string>): nat {
    if group == [] then 0 else Cost(group[..|group| - 1]) + |group[|group| - 1]| + 1
  }

  /** The loop variables `chunks` (as word groups), `current_chunk` and `current_size`. */
  datatype Packing = Packing(done: seq<seq<string>>, current: seq<string>, size: int)

  /** One turn of the loop on `word`. */
  function Push(p: Packing, word: string, limit: int): Packing {
    var wordSize := |word| + 1;
    if p.size + wordSize > limit then Packing(p.done + [p.current], [word], wordSize)
    else Packing(p.done, p.current + [word], p.size + wordSize)
  }

  /** The loop run over `words`. The open group is empty only before the first word, and it
      always ends with the last word read. */
  function Pack(words: seq<string>, limit: int): (r: Packing)
    ensures r.current == [] <==> words == []
    ensures words != [] ==> r.current[|r.current| - 1] == words[|words| - 1]
  {
    if words == [] then Packing([], [], 0)
    else Push(Pack(words[..|words| - 1], limit), words[|words| - 1], limit)
  }

  /** The word groups the chunks are joined from: the completed ones, then the open one if it
      holds a word. */
  function Groups(words: seq<string>, limit: int): seq<seq<string>> {
    var p := Pack(words, limit);
    if p.current != [] then p.done + [p.current] else p.done
  }

  /** `' '.join` of each group. */
  function JoinAll(groups: seq<seq<string>>): (r: seq<string>)
    ensures |r| == |groups|
  {
    if groups == [] then [] else JoinAll(groups[..|groups| - 1]) + [JoinSpace(groups[|groups| - 1])]
  }

  /** What `chunk_text(text, chunk_size)` returns: no chunk at all exactly when the text is
      all whitespace. */
  function Chunks(text: string, limit: int): (r: seq<string>)
    ensures r == [] <==> !HasNonSpace(text)
  {
    JoinAll(Groups(Words(text), limit))
  }

  /** The groups one after the other. */
  function Flatten(groups: seq<seq<string>>): seq<string> {
    if groups == [] then [] else Flatten(groups[..|groups| - 1]) + groups[|groups| - 1]
  }

  /** `split()` of each chunk. */
  function SplitEach(chunks: seq<string>): (r: seq<seq<string>>)
    ensures |r| == |chunks| && forall i :: 0 <= i < |chunks| ==> r[i] == Words(chunks[i])
  {
    seq(|chunks|, i requires 0 <= i < |chunks| => Words(chunks[i]))
  }

  /** `chunk_text`: split the text into words, then add each word to the open chunk unless its
      cost would take the chunk past `chunkSize`, in which case the open chunk is closed
      (even when it is empty) and the word opens the next one. */
  method ChunkText(text: string, chunkSize: int) returns (chunks: seq<string>)
    ensures chunks == Chunks(text, chunkSize)
  {
    var words := Words(text);
    chunks := [];
    var current: seq<string> := [];
    var currentSize := 0;
    for i := 0 to |words|
      invariant Pack(words[..i], chunkSize).current == current
      invariant Pack(words[..i], chunkSize).size == currentSize
      invariant chunks == JoinAll(Pack(words[..i], chunkSize).done)
    {
      assert words[..i + 1][..i] == words[..i];
      assert Pack(words[..i + 1], chunkSize) == Push(Pack(words[..i], chunkSize), words[i], chunkSize);
      var word := words[i];
      var wordSize := |word| + 1;
      if currentSize + wordSize > chunkSize {
        chunks := chunks + [JoinSpace(current)];
        current := [word];
        currentSize := wordSize;
      } else {
        current := current + [word];
        currentSize := currentSize + wordSize;
      }
    }
    assert words[..|words|] == words;
    if current != [] {
      chunks := chunks + [JoinSpace(current)];
    }
  }

  lemma FlattenSnoc(groups: seq<seq<string>>, g: seq<string>)
    ensures Flatten(groups + [g]) == Flatten(groups) + g
  {
    assert (groups + [g])[..|groups|] == groups;
  }

  lemma CostSnoc(group: seq<string>, w: string)
    ensures Cost(group + [w]) == Cost(group) + |w| + 1
  {
    assert (group + [w])[..|group|] == group;
  }

  /** The completed groups followed by the open one are the words read so far. */
  lemma {:induction false} PackFlatten(words: seq<string>, limit: int)
    ensures Flatten(Pack(words, limit).done) + Pack(words, limit).current == words
  {
    if words != [] {
      var init, w := words[..|words| - 1], words[|words| - 1];
      var p := Pack(init, limit);
      PackFlatten(init, limit);
      PushFlatten(p, w, limit);
      assert words == init + [w];
    }
  }

  lemma PushFlatten(p: Packing, w: string, limit: int)
    ensures Flatten(Push(p, w, limit).done) + Push(p, w, limit).current
         == Flatten(p.done) + p.current + [w]
  {
    if p.size + |w| + 1 > limit {
      FlattenSnoc(p.done, p.current);
    }
  }

  /** `current_size` is the cost of `current_chunk`. */
  lemma {:induction false} PackSize(words: seq<string>, limit: int)
    ensures Pack(words, limit).size == Cost(Pack(words, limit).current)
  {
    if words != [] {
      var init, w := words[..|words| - 1], words[|words| - 1];
      var p := Pack(init, limit);
      PackSize(init, limit);
      if p.size + |w| + 1 > limit {
        CostSnoc([], w);
        assert [] + [w] == [w];
      } else {
        CostSnoc(p.current, w);
      }
    }
  }

  /** A group of two or more words never costs more than the limit. */
  lemma {:induction false} PackBound(words: seq<string>, limit: int)
    ensures forall i :: 0 <= i < |Pack(words, limit).done| && |Pack(words, limit).done[i]| >= 2 ==>
              Cost(Pack(words, limit).done[i]) <= limit
    ensures |Pack(words, limit).current| >= 2 ==> Cost(Pack(words, limit).current) <= limit
  {
    if words != [] {
      var init, w := words[..|words| - 1], words[|words| - 1];
      var p := Pack(init, limit);
      PackBound(init, limit);
      PackSize(init, limit);
      if p.size + |w| + 1 <= limit {
        CostSnoc(p.current, w);
      }
    }
  }

  /** The group after position `i` in the completed groups and the open one. */
  function Next(p: Packing, i: nat): seq<string>
    requires i < |p.done|
  {
    (p.done + [p.current])[i + 1]
  }

  /** Greedy: the first word of the following group would not have fitted into a completed
      group. */
  lemma {:induction false} PackMaximal(words: seq<string>, limit: int)
    ensures forall i :: 0 <= i < |Pack(words, limit).done| ==>
              Next(Pack(words, limit), i) != [] &&
              Cost(Pack(words, limit).done[i]) + |Next(Pack(words, limit), i)[0]| + 1 > limit
  {
    if words != [] {
      var init, w := words[..|words| - 1], words[|words| - 1];
      var p := Pack(init, limit);
      var q := Pack(words, limit);
      PackMaximal(init, limit);
      PackSize(init, limit);
      if p.size + |w| + 1 > limit {
        forall i | 0 <= i < |q.done|
          ensures Next(q, i) != [] && Cost(q.done[i]) + |Next(q, i)[0]| + 1 > limit
        {
          if i < |p.done| {
            assert q.done[i] == p.done[i] && Next(q, i) == Next(p, i);
          } else {
            assert q.done[i] == p.current && Next(q, i) == [w];
          }
        }
      } else {
        forall i | 0 <= i < |q.done|
          ensures Next(q, i) != [] && Cost(q.done[i]) + |Next(q, i)[0]| + 1 > limit
        {
          assert q.done[i] == p.done[i];
          if i < |p.done| - 1 {
            assert Next(q, i) == Next(p, i);
          } else {
            assert Next(p, i) == p.current && Next(q, i) == p.current + [w];
          }
        }
      }
    }
  }

  /** Only the first completed group can be empty, and it is exactly when the first word on
      its own costs more than the limit. */
  lemma {:induction false} PackEmpty(words: seq<string>, limit: int)
    ensures forall i :: 0 <= i < |Pack(words, limit).done| && Pack(words, limit).done[i] == [] ==> i == 0
    ensures (words != [] && |words[0]| + 1 > limit) <==>
            (Pack(words, limit).done != [] && Pack(words, limit).done[0] == [])
  {
    if words != [] {
      var init, w := words[..|words| - 1], words[|words| - 1];
      var p := Pack(init, limit);
      PackEmpty(init, limit);
      PackSize(init, limit);
      if init != [] {
        assert init[0] == words[0];
      }
    }
  }

  /** Every grouped word is a word of the input, in the sense that groups of whitespace-free
      words come from whitespace-free words. */
  lemma {:induction false} PackWords(words: seq<string>, limit: int)
    requires forall k :: 0 <= k < |words| ==> IsWord(words[k])
    ensures forall i, j :: 0 <= i < |Pack(words, limit).done| && 0 <= j < |Pack(words, limit).done[i]| ==>
              IsWord(Pack(words, limit).done[i][j])
    ensures forall j :: 0 <= j < |Pack(words, limit).current| ==> IsWord(Pack(words, limit).current[j])
  {
    if words != [] {
      var init, w := words[..|words| - 1], words[|words| - 1];
      PackWords(init, limit);
      var p := Pack(init, limit);
      assert Pack(words, limit) == Push(p, w, limit);
      assert IsWord(w);
      if p.size + |w| + 1 > limit {
        assert Pack(words, limit).done == p.done + [p.current];
      } else {
        assert Pack(words, limit).current == p.current + [w];
      }
    }
  }

  /** No word is lost, duplicated or reordered. */
  lemma GroupsFlatten(words: seq<string>, limit: int)
    ensures Flatten(Groups(words, limit)) == words
  {
    var p := Pack(words, limit);
    PackFlatten(words, limit);
    if p.current != [] {
      FlattenSnoc(p.done, p.current);
    }
  }

  /** The properties of the groups, stated on the final list. */
  lemma GroupsShape(words: seq<string>, limit: int)
    ensures words == [] ==> Groups(words, limit) == []
    ensures forall i :: 0 <= i < |Groups(words, limit)| && |Groups(words, limit)[i]| >= 2 ==>
              Cost(Groups(words, limit)[i]) <= limit
    ensures forall j :: 1 <= j < |Groups(words, limit)| ==>
              Groups(words, limit)[j] != [] &&
              Cost(Groups(words, limit)[j - 1]) + |Groups(words, limit)[j][0]| + 1 > limit
    ensures forall i :: 0 <= i < |Groups(words, limit)| ==>
              (Groups(words, limit)[i] == [] <==> i == 0 && |words[0]| + 1 > limit)
  {
    var p := Pack(words, limit);
    var g := Groups(words, limit);
    PackSize(words, limit);
    PackBound(words, limit);
    PackMaximal(words, limit);
    PackEmpty(words, limit);
    if words != [] {
      assert g == p.done + [p.current];
      forall j | 1 <= j < |g|
        ensures g[j] != [] && Cost(g[j - 1]) + |g[j][0]| + 1 > limit
      {
        assert g[j - 1] == p.done[j - 1] && g[j] == Next(p, j - 1);
      }
    }
  }

  lemma {:induction false} JoinAllIndex(groups: seq<seq<string>>, i: nat)
    requires i < |groups|
    ensures JoinAll(groups)[i] == JoinSpace(groups[i])
  {
    if i < |groups| - 1 {
      JoinAllIndex(groups[..|groups| - 1], i);
    }
  }

  /** `split()` of each chunk gives back its group. */
  lemma ChunksGroups(text: string, limit: int)
    ensures SplitEach(Chunks(text, limit)) == Groups(Words(text), limit)
    ensures forall i :: 0 <= i < |Chunks(text, limit)| ==>
              Chunks(text, limit)[i] == JoinSpace(Groups(Words(text), limit)[i])
    ensures forall i, j :: 0 <= i < |Groups(Words(text), limit)| && 0 <= j < |Groups(Words(text), limit)[i]| ==>
              IsWord(Groups(Words(text), limit)[i][j])
  {
    var words := Words(text);
    var g := Groups(words, limit);
    var c := Chunks(text, limit);
    PackWords(words, limit);
    forall i | 0 <= i < |g|
      ensures c[i] == JoinSpace(g[i])
      ensures forall j :: 0 <= j < |g[i]| ==> IsWord(g[i][j])
    {
      JoinAllIndex(g, i);
    }
    forall i | 0 <= i < |g|
      ensures SplitEach(c)[i] == g[i]
    {
      WordsOfJoin(g[i]);
    }
  }

  /** Splitting every chunk on whitespace and putting the pieces one after the other gives
      `text.split()` back exactly. */
  lemma ChunksPreserveWords(text: string, limit: int)
    ensures Flatten(SplitEach(Chunks(text, limit))) == Words(text)
  {
    ChunksGroups(text, limit);
    GroupsFlatten(Words(text), limit);
  }

  /** A chunk of two or more words costs at most the limit, and the first word of the next
      chunk would have taken it past the limit. */
  lemma ChunksBoundedAndGreedy(text: string, limit: int)
    ensures forall i :: 0 <= i < |Chunks(text, limit)| && |Words(Chunks(text, limit)[i])| >= 2 ==>
              Cost(Words(Chunks(text, limit)[i])) <= limit
    ensures forall j :: 1 <= j < |Chunks(text, limit)| ==>
              Words(Chunks(text, limit)[j]) != [] &&
              Cost(Words(Chunks(text, limit)[j - 1])) + |Words(Chunks(text, limit)[j])[0]| + 1 > limit
  {
    ChunksGroups(text, limit);
    GroupsShape(Words(text), limit);
    var c, g := Chunks(text, limit), Groups(Words(text), limit);
    assert forall i :: 0 <= i < |c| ==> Words(c[i]) == g[i] by {
      forall i | 0 <= i < |c| ensures Words(c[i]) == g[i] {
        assert SplitEach(c)[i] == g[i];
      }
    }
  }

  /** Only the first chunk can be the empty string, and it is exactly when the first word on
      its own costs more than the limit. */
  lemma ChunksEmpty(text: string, limit: int)
    ensures forall i :: 0 <= i < |Chunks(text, limit)| ==>
              (Chunks(text, limit)[i] == "" <==> i == 0 && |Words(text)[0]| + 1 > limit)
  {
    ChunksGroups(text, limit);
    GroupsShape(Words(text), limit);
    var c, g := Chunks(text, limit), Groups(Words(text), limit);
    forall i | 0 <= i < |c|
      ensures c[i] == "" <==> g[i] == []
    {
      if g[i] != [] {
        JoinLength(g[i]);
        assert IsWord(g[i][0]);
      }
    }
  }

  /** Inside a chunk the words are separated by single spaces, with none at either end. */
  lemma ChunksSpacing(text: string, limit: int, i: nat)
    requires i < |Chunks(text, limit)|
    ensures IsStripped(Chunks(text, limit)[i])
    ensures forall k :: 0 <= k < |Chunks(text, limit)[i]| - 1 ==>
              !(Chunks(text, limit)[i][k] == ' ' && Chunks(text, limit)[i][k + 1] == ' ')
  {
    ChunksGroups(text, limit);
    JoinSpaceShape(Groups(Words(text), limit)[i]);
  }
}
