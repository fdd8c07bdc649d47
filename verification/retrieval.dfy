/** The query side: the loaded chunk collection is normalised to a list,
    the positions returned by the vector search are mapped back to chunk
    texts, the texts are joined into one context and the prompt for the
    language model is assembled around it. The search itself is not part
    of this model; its result enters as a matrix of positions. */
module Retrieval {
  import opened Wrappers

  // ---------------------------------------------------------------------
  // Normalising the loaded chunk collection
  // ---------------------------------------------------------------------

  /** Keys of a JSON object never repeat once it is loaded as a dict. */
  predicate DistinctKeys(entries: seq<(string, string)>) {
    forall i, j :: 0 <= i < j < |entries| ==> entries[i].0 != entries[j].0
  }

  /** A dict as Python keeps it: its entries in insertion order. */
  type Dict = entries: seq<(string, string)> | DistinctKeys(entries) witness []

  /** What `json.load` gives for the chunk file: a list of chunk texts, or
      an object whose values are the chunk texts. */
  datatype Loaded = ChunkList(items: seq<string>) | ChunkDict(entries: Dict)

  /** `d.values()` as a list: one value per entry, in insertion order. */
  function Values(d: seq<(string, string)>): (r: seq<string>)
    ensures |r| == |d|
    ensures forall i :: 0 <= i < |d| ==> r[i] == d[i].1
  {
    if d == [] then [] else [d[0].1] + Values(d[1..])
  }

  /** A dict is replaced by the list of its values, a list is kept as it is. */
  function Normalize(loaded: Loaded): (r: seq<string>)
    ensures loaded.ChunkList? ==> r == loaded.items
    ensures loaded.ChunkDict? ==> |r| == |loaded.entries|
    ensures loaded.ChunkDict? ==> forall i :: 0 <= i < |r| ==> r[i] == loaded.entries[i].1
  {
    match loaded
    case ChunkList(items) => items
    case ChunkDict(entries) => Values(entries)
  }

  // ---------------------------------------------------------------------
  // Search positions
  // ---------------------------------------------------------------------

  /** `indices.flatten()`: the rows of the search result, one per query,
      laid end to end; a position is in the flat list exactly when it is in
      some row, and a single row is kept as it is. */
  function Flatten(rows: seq<seq<int>>): (r: seq<int>)
    ensures |rows| == 1 ==> r == rows[0]
    ensures forall x :: x in r <==> exists q :: 0 <= q < |rows| && x in rows[q]
  {
    if rows == [] then [] else rows[0] + Flatten(rows[1..])
  }

  /** Flattening keeps every row whole and in order: row q occupies the
      positions that follow the rows before it. */
  lemma {:induction false} FlattenRow(rows: seq<seq<int>>, q: nat)
    requires q < |rows|
    ensures |Flatten(rows[..q])| + |rows[q]| <= |Flatten(rows)|
    ensures Flatten(rows)[|Flatten(rows[..q])|..|Flatten(rows[..q])| + |rows[q]|] == rows[q]
  {
    if q == 0 {
      assert rows[..0] == [];
    } else {
      FlattenRow(rows[1..], q - 1);
      assert rows[1..][..q - 1] == rows[..q][1..];
      assert rows[1..][q - 1] == rows[q];
    }
  }

  // ---------------------------------------------------------------------
  // Looking chunks up by position
  // ---------------------------------------------------------------------

  /** The error `chunks[i]` raises for a position outside the list. */
  datatype LookupError = IndexError(position: int)

  /** The positions Python accepts for a list of n items: 0 to n - 1, and
      -n to -1, which count from the end. */
  predicate InRange(n: nat, i: int) {
    0 <= i + n && i < n
  }

  /** The list slot a position in range refers to. */
  function Resolve(n: nat, i: int): (j: nat)
    requires InRange(n, i)
    ensures j < n
  {
    if i < 0 then n + i else i
  }

  /** `chunks[i]`: a non-negative position picks that chunk, a negative one
      counts from the end, and any other raises IndexError. */
  function Lookup(chunks: seq<string>, i: int): (r: Result<string, LookupError>)
    ensures 0 <= i < |chunks| ==> r == Success(chunks[i])
    ensures -|chunks| <= i < 0 ==> r == Success(chunks[|chunks| + i])
    ensures (i < -|chunks| || |chunks| <= i) ==> r == Failure(IndexError(i))
  {
    if InRange(|chunks|, i) then Success(chunks[Resolve(|chunks|, i)]) else Failure(IndexError(i))
  }

  /** `[chunks[i] for i in positions]`: one chunk per position, in search
      order; evaluation stops at the first position out of range, whose
      IndexError is the result. */
  function ContextChunks(chunks: seq<string>, positions: seq<int>): (r: Result<seq<string>, LookupError>)
    ensures r.Success? <==> forall j :: 0 <= j < |positions| ==> InRange(|chunks|, positions[j])
    ensures r.Success? ==> |r.value| == |positions|
    ensures r.Success? ==> forall j :: 0 <= j < |positions| ==>
      r.value[j] == chunks[Resolve(|chunks|, positions[j])]
    ensures r.Failure? ==> exists j :: (0 <= j < |positions| && !InRange(|chunks|, positions[j]) &&
      r.error == IndexError(positions[j]) &&
      forall k :: 0 <= k < j ==> InRange(|chunks|, positions[k]))
  {
    if positions == [] then Success([])
    else
      var first :- Lookup(chunks, positions[0]);
      var rest :- ContextChunks(chunks, positions[1..]);
      assert forall j :: 1 <= j < |positions| ==> positions[j] == positions[1..][j - 1];
      Success([first] + rest)
  }

  /** A position of -1, which the search reports when it has fewer results
      than asked for, does not fail: it picks the last chunk. */
  lemma MinusOnePicksLastChunk(chunks: seq<string>, positions: seq<int>, j: nat)
    requires |chunks| > 0
    requires j < |positions| && positions[j] == -1
    requires ContextChunks(chunks, positions).Success?
    ensures ContextChunks(chunks, positions).value[j] == chunks[|chunks| - 1]
  {
  }

  // ---------------------------------------------------------------------
  // Joining the context
  // ---------------------------------------------------------------------

  /** The separator placed between the retrieved chunks. */
  const Separator: string := "\n\n"

  /** The total length of the parts. */
  function TotalLength(parts: seq<string>): nat {
    if parts == [] then 0 else |parts[0]| + TotalLength(parts[1..])
  }

  /** `sep.join(parts)`. */
  function Join(sep: string, parts: seq<string>): string {
    if |parts| == 0 then ""
    else if |parts| == 1 then parts[0]
    else parts[0] + sep + Join(sep, parts[1..])
  }

  /** No parts join to "", one part joins to itself, and n parts join to a
      string as long as all of them plus n - 1 separators. */
  lemma {:induction false} JoinLength(sep: string, parts: seq<string>)
    ensures |parts| == 0 ==> Join(sep, parts) == ""
    ensures |parts| == 1 ==> Join(sep, parts) == parts[0]
    ensures |parts| > 0 ==> |Join(sep, parts)| == TotalLength(parts) + |sep| * (|parts| - 1)
  {
    if |parts| > 1 {
      JoinLength(sep, parts[1..]);
      assert |sep| * (|parts| - 1) == |sep| + |sep| * (|parts| - 2);
    }
  }

  /** Where part j begins in the joined string: after every earlier part
      and its separator. */
  function Offset(sep: string, parts: seq<string>, j: nat): nat
    requires j <= |parts|
  {
    if j == 0 then 0 else |parts[0]| + |sep| + Offset(sep, parts[1..], j - 1)
  }

  /** Two or more parts join to the first, the separator, and the join of
      the rest. */
  lemma JoinCons(sep: string, parts: seq<string>)
    requires |parts| > 1
    ensures Join(sep, parts) == (parts[0] + sep) + Join(sep, parts[1..])
  {
  }

  /** Part j > 0 begins after the first part and its separator, at its
      offset among the remaining parts. */
  lemma OffsetCons(sep: string, parts: seq<string>, j: nat)
    requires 0 < j < |parts|
    ensures Offset(sep, parts, j) == |parts[0] + sep| + Offset(sep, parts[1..], j - 1)
    ensures parts[1..][j - 1] == parts[j]
  {
  }

  /** A slice of a + b that lies inside a is a slice of a. */
  lemma SliceOfLeft(a: string, b: string, i: nat, j: nat)
    requires i <= j <= |a|
    ensures (a + b)[i..j] == a[i..j]
  {
  }

  /** A slice of a + b that lies inside b is a slice of b. */
  lemma SliceOfRight(a: string, b: string, i: nat, j: nat)
    requires |a| <= i <= j <= |a| + |b|
    ensures (a + b)[i..j] == b[i - |a|..j - |a|]
  {
  }

  /** A slice of b is the matching slice of a + b, shifted by |a|. */
  lemma ShiftSlice(a: string, b: string, o: nat, x: string)
    requires o + |x| <= |b| && b[o..o + |x|] == x
    ensures |a| + o + |x| <= |a + b| && (a + b)[|a| + o..|a| + o + |x|] == x
  {
    SliceOfRight(a, b, |a| + o, |a| + o + |x|);
  }

  /** The joined string holds part j verbatim at Offset(j). */
  lemma {:induction false} JoinPlacesPart(sep: string, parts: seq<string>, j: nat)
    requires j < |parts|
    ensures Offset(sep, parts, j) + |parts[j]| <= |Join(sep, parts)|
    ensures Join(sep, parts)[Offset(sep, parts, j)..Offset(sep, parts, j) + |parts[j]|] == parts[j]
  {
    if |parts| == 1 {
      assert Join(sep, parts) == parts[0];
    } else {
      JoinCons(sep, parts);
      if j == 0 {
        SliceOfLeft(parts[0] + sep, Join(sep, parts[1..]), 0, |parts[0]|);
      } else {
        OffsetCons(sep, parts, j);
        JoinPlacesPart(sep, parts[1..], j - 1);
        ShiftSlice(parts[0] + sep, Join(sep, parts[1..]), Offset(sep, parts[1..], j - 1), parts[j]);
      }
    }
  }

  /** In the joined string every part but the last is followed by the
      separator. */
  lemma {:induction false} JoinPlacesSeparator(sep: string, parts: seq<string>, j: nat)
    requires j + 1 < |parts|
    ensures Offset(sep, parts, j) + |parts[j]| + |sep| <= |Join(sep, parts)|
    ensures Join(sep, parts)[Offset(sep, parts, j) + |parts[j]|..Offset(sep, parts, j) + |parts[j]| + |sep|] == sep
  {
    var head := parts[0] + sep;
    JoinCons(sep, parts);
    if j == 0 {
      SliceOfLeft(head, Join(sep, parts[1..]), |parts[0]|, |head|);
    } else {
      OffsetCons(sep, parts, j);
      JoinPlacesSeparator(sep, parts[1..], j - 1);
      ShiftSlice(head, Join(sep, parts[1..]), Offset(sep, parts[1..], j - 1) + |parts[j]|, sep);
    }
  }

  // ---------------------------------------------------------------------
  // The prompt
  // ---------------------------------------------------------------------

  /** The fixed text before the context, including the newline that opens
      the triple-quoted f-string. */
  const Preamble: string :=
    "\nYou are an expert Fantasy Premier League assistant.\nUse ONLY the context below to answer.\n\nContext:\n"

  /** The fixed text between the context and the question. */
  const QuestionHeader: string := "\n\nQuestion:\n"

  /** The template of the prompt: the preamble, the context verbatim, the
      header, the question verbatim and a final newline. */
  function Fill(preamble: string, header: string, context: string, question: string): string {
    preamble + context + header + question + "\n"
  }

  /** The prompt sent to the language model. */
  function Prompt(context: string, question: string): string {
    Fill(Preamble, QuestionHeader, context, question)
  }

  /** Where the parts sit in the prompt: the context right after the
      preamble, then the header, then the question and the final newline,
      so the context always precedes the question. */
  lemma PromptLayout(context: string, question: string)
    ensures var p := Prompt(context, question);
      var c := |Preamble|;
      var q := c + |context| + |QuestionHeader|;
      |p| == q + |question| + 1 &&
      p[..c] == Preamble &&
      p[c..c + |context|] == context &&
      p[c + |context|..q] == QuestionHeader &&
      p[q..q + |question|] == question &&
      p[|p| - 1] == '\n'
  {
  }

  /** The position of the last `c` in `s`, if any. */
  function LastIndexOf(s: string, c: char): (r: Option<nat>)
    ensures r.Some? ==> r.value < |s| && s[r.value] == c
    ensures r.Some? ==> forall k :: r.value < k < |s| ==> s[k] != c
    ensures r.None? ==> c !in s
  {
    if s == [] then None
    else if s[|s| - 1] == c then Some(|s| - 1)
    else LastIndexOf(s[..|s| - 1], c)
  }

  /** Splits the text between the preamble and the final newline at its
      last line break: the question follows it, the header must end with
      it, and the context is what precedes the header. */
  function SplitAtHeader(header: string, body: string): Option<(string, string)> {
    match LastIndexOf(body, '\n')
    case None => None
    case Some(nl) =>
      if nl + 1 < |header| || body[nl + 1 - |header|..nl + 1] != header then None
      else Some((body[..nl + 1 - |header|], body[nl + 1..]))
  }

  /** Reads a filled template back into its context and question: the
      preamble must open it and a newline must close it. */
  function Unfill(preamble: string, header: string, p: string): Option<(string, string)> {
    if |p| <= |preamble| || p[..|preamble|] != preamble || p[|p| - 1] != '\n' then None
    else SplitAtHeader(header, p[|preamble|..|p| - 1])
  }

  /** Reads a prompt back into its context and question. A question typed
      at the prompt is a single line, so the last line break before the
      final one ends the question header. */
  function ParsePrompt(p: string): Option<(string, string)> {
    Unfill(Preamble, QuestionHeader, p)
  }

  /** The last line break of context + header + question is the one that
      ends the header, when the header ends in one and the question holds
      none. */
  lemma {:induction false} LastBreakEndsHeader(header: string, context: string, question: string)
    requires header != [] && header[|header| - 1] == '\n'
    requires '\n' !in question
    ensures LastIndexOf(context + header + question, '\n') == Some(|context| + |header| - 1)
  {
    var s := context + header + question;
    if question == [] {
      assert s == context + header;
    } else {
      var init := question[..|question| - 1];
      assert question[|question| - 1] in question;
      assert s[..|s| - 1] == context + header + init;
      assert forall c :: c in init ==> c in question;
      LastBreakEndsHeader(header, context, init);
    }
  }

  /** Context, header and a one-line question split back into context and
      question. */
  lemma SplitAtHeaderInverts(header: string, context: string, question: string)
    requires header != [] && header[|header| - 1] == '\n'
    requires '\n' !in question
    ensures SplitAtHeader(header, context + header + question) == Some((context, question))
  {
    var body := context + header + question;
    LastBreakEndsHeader(header, context, question);
    var nl := |context| + |header| - 1;
    assert body[|context|..nl + 1] == header;
    assert body[..|context|] == context;
    assert body[nl + 1..] == question;
  }

  /** A string is the concatenation of its three slices at i and j. */
  lemma SplitThree(s: string, i: nat, j: nat)
    requires i <= j <= |s|
    ensures s == s[..i] + s[i..j] + s[j..]
  {
  }

  /** Whatever SplitAtHeader accepts is the context, the header and a
      one-line question, in that order. */
  lemma SplitAtHeaderSound(header: string, body: string)
    requires SplitAtHeader(header, body).Some?
    ensures '\n' !in SplitAtHeader(header, body).value.1
    ensures SplitAtHeader(header, body).value.0 + header + SplitAtHeader(header, body).value.1 == body
  {
    var nl := LastIndexOf(body, '\n').value;
    var split := nl + 1 - |header|;
    var question := body[nl + 1..];
    assert body[split..nl + 1] == header;
    assert '\n' !in question by {
      forall k | 0 <= k < |question|
        ensures question[k] != '\n'
      {
        assert question[k] == body[nl + 1 + k];
      }
    }
    SplitThree(body, split, nl + 1);
  }

  /** The context and a one-line question can be read back from the
      filled template. */
  lemma UnfillInverts(preamble: string, header: string, context: string, question: string)
    requires header != [] && header[|header| - 1] == '\n'
    requires '\n' !in question
    ensures Unfill(preamble, header, Fill(preamble, header, context, question)) == Some((context, question))
  {
    var p := Fill(preamble, header, context, question);
    var body := context + header + question;
    assert p == preamble + body + "\n";
    assert p[..|preamble|] == preamble;
    assert p[|preamble|..|p| - 1] == body;
    SplitAtHeaderInverts(header, context, question);
  }

  /** Whatever Unfill accepts is the template filled with the parts it
      returns, and the question it returns is a single line. */
  lemma UnfillSound(preamble: string, header: string, p: string)
    requires Unfill(preamble, header, p).Some?
    ensures '\n' !in Unfill(preamble, header, p).value.1
    ensures Fill(preamble, header, Unfill(preamble, header, p).value.0, Unfill(preamble, header, p).value.1) == p
  {
    var body := p[|preamble|..|p| - 1];
    SplitAtHeaderSound(header, body);
    assert p == preamble + body + "\n" by {
      SplitThree(p, |preamble|, |p| - 1);
      assert p[|p| - 1..] == "\n";
    }
  }

  /** The context and a one-line question can be read back from the prompt
      built from them: the prompt is unambiguous. */
  lemma ParsePromptInverts(context: string, question: string)
    requires '\n' !in question
    ensures ParsePrompt(Prompt(context, question)) == Some((context, question))
  {
    UnfillInverts(Preamble, QuestionHeader, context, question);
  }

  /** Conversely, whatever ParsePrompt accepts is the prompt built from the
      parts it returns, and the question it returns is a single line. */
  lemma ParsePromptSound(p: string)
    requires ParsePrompt(p).Some?
    ensures '\n' !in ParsePrompt(p).value.1
    ensures Prompt(ParsePrompt(p).value.0, ParsePrompt(p).value.1) == p
  {
    UnfillSound(Preamble, QuestionHeader, p);
  }

  // ---------------------------------------------------------------------
  // The query pipeline, from the loaded collection to the prompt
  // ---------------------------------------------------------------------

  /** The prompt for a question, from the loaded chunk collection and the
      rows of search positions: it fails exactly when some position is out
      of range, and otherwise holds the retrieved chunks, joined, as its
      context. The chunk collection is a value, so retrieval cannot change it. */
  function RetrievePrompt(loaded: Loaded, rows: seq<seq<int>>, question: string): (r: Result<string, LookupError>)
    ensures r.Success? <==> forall x :: x in Flatten(rows) ==> InRange(|Normalize(loaded)|, x)
    ensures r.Success? ==>
      ContextChunks(Normalize(loaded), Flatten(rows)).Success? &&
      r.value == Prompt(Join(Separator, ContextChunks(Normalize(loaded), Flatten(rows)).value), question)
  {
    var chunks := Normalize(loaded);
    var positions := Flatten(rows);
    var context :- ContextChunks(chunks, positions);
    Success(Prompt(Join(Separator, context), question))
  }
}
