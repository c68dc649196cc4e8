/** The body of `qr`: the chunk size from `estimate_chunk`, the content cut
    into chunks of that size (`slice::chunks`), one QR code per chunk, and
    the renderings joined with a run of empty lines between consecutive
    codes. The rendering of one code (`print_qr`: its caption, centring
    and the code's text art, all depending on the label and border
    options) is a parameter `render(i, n, chunk)` for chunk `i` of `n`. */
module Assemble {
  import opened Types
  import Estimate

  type Renderer = (nat, nat, seq<u8>) -> string

  /** `content.chunks(size)`: consecutive slices of `size` bytes, the last
      one possibly shorter, and no slice at all for empty content. */
  function Chunks(content: seq<u8>, size: nat): seq<seq<u8>>
    requires size > 0
    decreases |content|
  {
    if |content| == 0 then []
    else if |content| <= size then [content]
    else [content[..size]] + Chunks(content[size..], size)
  }

  /** The slices laid end to end. */
  function Concat(parts: seq<seq<u8>>): seq<u8>
  {
    if parts == [] then [] else parts[0] + Concat(parts[1..])
  }

  /** Concatenating the chunks in order gives back the content. */
  lemma {:induction false} ChunksConcat(content: seq<u8>, size: nat)
    requires size > 0
    ensures Concat(Chunks(content, size)) == content
    decreases |content|
  {
    if |content| > size {
      ChunksConcat(content[size..], size);
      assert ([content[..size]] + Chunks(content[size..], size))[1..] == Chunks(content[size..], size);
      assert content[..size] + content[size..] == content;
    }
  }

  /** Every chunk is non-empty and at most `size` long, and every chunk but
      the last is exactly `size` long. */
  lemma {:induction false} ChunksShape(content: seq<u8>, size: nat)
    requires size > 0
    ensures forall i :: 0 <= i < |Chunks(content, size)| ==>
              0 < |Chunks(content, size)[i]| <= size
              && (i < |Chunks(content, size)| - 1 ==> |Chunks(content, size)[i]| == size)
    decreases |content|
  {
    if |content| > size {
      ChunksShape(content[size..], size);
      var cs := Chunks(content, size);
      assert forall i :: 1 <= i < |cs| ==> cs[i] == Chunks(content[size..], size)[i - 1];
    }
  }

  /** Content no longer than `p` times `size` is cut into at most `p` chunks. */
  lemma {:induction false} ChunkCountBound(content: seq<u8>, size: nat, p: nat)
    requires size > 0 && |content| <= p * size
    ensures |Chunks(content, size)| <= p
    decreases |content|
  {
    if |content| > size {
      assert p * size == size + (p - 1) * size;
      ChunkCountBound(content[size..], size, p - 1);
    } else if |content| > 0 {
      assert p != 0;
    }
  }

  /** After a prefix of length `t` matched the requested version, cutting
      the content at the rebalanced size gives at most `len / t + 1`
      chunks, none longer than `t`. */
  lemma RebalancedChunks(content: seq<u8>, t: nat)
    requires 1 <= t <= |content|
    ensures |Chunks(content, Estimate.Rebalance(|content|, t))| <= Estimate.Pieces(|content|, t)
    ensures forall i :: 0 <= i < |Chunks(content, Estimate.Rebalance(|content|, t))| ==>
              |Chunks(content, Estimate.Rebalance(|content|, t))[i]| <= t
  {
    var r := Estimate.Rebalance(|content|, t);
    ChunkCountBound(content, r, Estimate.Pieces(|content|, t));
    ChunksShape(content, r);
  }

  /** `"\n".repeat(n)`. */
  function EmptyLines(n: nat): string
  {
    seq(n, _ => '\n')
  }

  /** The renderings with `sep` between consecutive ones: no separator
      before the first or after the last. */
  function Joined(parts: seq<string>, sep: string): string
  {
    if |parts| == 0 then ""
    else if |parts| == 1 then parts[0]
    else Joined(parts[..|parts| - 1], sep) + sep + parts[|parts| - 1]
  }

  /** The total length of some strings. */
  function TotalLength(parts: seq<string>): nat
  {
    if parts == [] then 0 else |parts[0]| + TotalLength(parts[1..])
  }

  /** Joining also works from the front: the first rendering, a separator,
      and the rest joined. */
  lemma {:induction false} JoinedCons(first: string, rest: seq<string>, sep: string)
    requires |rest| > 0
    ensures Joined([first] + rest, sep) == first + sep + Joined(rest, sep)
    decreases |rest|
  {
    var all := [first] + rest;
    if |rest| > 1 {
      assert all[..|all| - 1] == [first] + rest[..|rest| - 1];
      JoinedCons(first, rest[..|rest| - 1], sep);
    } else {
      assert all[..|all| - 1] == [first];
    }
  }

  /** The joined text's length: the renderings' lengths plus one separator per consecutive pair. */
  lemma {:induction false} JoinedLength(parts: seq<string>, sep: string)
    requires |parts| > 0
    ensures |Joined(parts, sep)| == TotalLength(parts) + (|parts| - 1) * |sep|
    decreases |parts|
  {
    if |parts| > 1 {
      JoinedCons(parts[0], parts[1..], sep);
      assert [parts[0]] + parts[1..] == parts;
      JoinedLength(parts[1..], sep);
    } else {
      assert parts[1..] == [];
    }
  }

  /** Each rendering preceded by a separator. */
  function SeparatorFirst(parts: seq<string>, sep: string): string
  {
    if parts == [] then "" else sep + parts[0] + SeparatorFirst(parts[1..], sep)
  }

  /** Where the separators are: the first rendering, then each following
      rendering preceded by exactly one separator; nothing after the last. */
  lemma {:induction false} JoinedPlacement(parts: seq<string>, sep: string)
    requires |parts| > 0
    ensures Joined(parts, sep) == parts[0] + SeparatorFirst(parts[1..], sep)
    decreases |parts|
  {
    if |parts| > 1 {
      JoinedCons(parts[0], parts[1..], sep);
      assert [parts[0]] + parts[1..] == parts;
      JoinedPlacement(parts[1..], sep);
      assert parts[1..][1..] == parts[2..];
    } else {
      assert parts[1..] == [];
    }
  }

  /** The renderings of the chunks, chunk `i` of `|chunks|`. */
  function Rendered(chunks: seq<seq<u8>>, render: Renderer): (parts: seq<string>)
  {
    seq(|chunks|, i requires 0 <= i < |chunks| => render(i, |chunks|, chunks[i]))
  }

  /** The error of the first chunk the encoder rejects. */
  function FirstFailure(chunks: seq<seq<u8>>, encode: Encoder): Option<QrError>
  {
    if chunks == [] then None
    else if encode(chunks[0]).Failed? then Some(encode(chunks[0]).error)
    else FirstFailure(chunks[1..], encode)
  }

  /** What `qr` returns once the chunk size is known. */
  function Assembled(content: seq<u8>, size: nat, emptyLines: u8, encode: Encoder, render: Renderer): Outcome<string, Error>
    requires size > 0
  {
    var chunks := Chunks(content, size);
    match FirstFailure(chunks, encode)
    case Some(e) => Err(Error.Qr(e))
    case None => Ok(Joined(Rendered(chunks, render), EmptyLines(emptyLines)))
  }

  lemma {:induction false} FirstFailureAppend(a: seq<seq<u8>>, b: seq<seq<u8>>, encode: Encoder)
    ensures FirstFailure(a + b, encode) == if FirstFailure(a, encode) == None then FirstFailure(b, encode) else FirstFailure(a, encode)
  {
    if a != [] {
      assert (a + b)[0] == a[0];
      assert (a + b)[1..] == a[1..] + b;
      FirstFailureAppend(a[1..], b, encode);
    } else {
      assert a + b == b;
    }
  }

  /** The first failing chunk is the one at which the loop of `qr` stops. */
  lemma FirstFailureAt(chunks: seq<seq<u8>>, i: nat, encode: Encoder)
    requires i < |chunks| && FirstFailure(chunks[..i], encode) == None && encode(chunks[i]).Failed?
    ensures FirstFailure(chunks, encode) == Some(encode(chunks[i]).error)
  {
    assert chunks == chunks[..i] + chunks[i..];
    FirstFailureAppend(chunks[..i], chunks[i..], encode);
  }

  /** The `for` loop of `qr` over the chunks of `content` of `size` bytes. */
  method AssembleCodes(content: seq<u8>, size: nat, emptyLines: u8, encode: Encoder, render: Renderer)
    returns (r: Outcome<string, Error>)
    requires size > 0
    ensures r == Assembled(content, size, emptyLines, encode, render)
  {
    var result := "";
    var sep := EmptyLines(emptyLines);
    var splitted := Chunks(content, size);
    var len := |splitted|;
    ghost var parts := Rendered(splitted, render);
    for i := 0 to len
      invariant FirstFailure(splitted[..i], encode) == None
      invariant result == Joined(parts[..i], sep) + (if 0 < i < len then sep else "")
    {
      assert parts[..i + 1][..i] == parts[..i];
      assert splitted[..i + 1] == splitted[..i] + [splitted[i]];
      FirstFailureAppend(splitted[..i], [splitted[i]], encode);
      if encode(splitted[i]).Failed? {
        FirstFailureAt(splitted, i, encode);
        return Err(Error.Qr(encode(splitted[i]).error));
      }
      result := result + render(i, len, splitted[i]);
      if i < len - 1 {
        result := result + sep;
      }
    }
    assert parts[..len] == parts;
    assert splitted[..len] == splitted;
    assert FirstFailure(splitted, encode) == None;
    assert result == Joined(Rendered(Chunks(content, size), render), EmptyLines(emptyLines));
    r := Ok(result);
  }

  /** `qr(content, version, border, empty_lines, label)`, with the border
      and the label folded into `render`. */
  method Qr(content: seq<u8>, version: u8, emptyLines: u8, encode: Encoder, render: Renderer)
    returns (r: Outcome<string, Error>)
    ensures version == 0 || version > 40 ==> r == Err(Other(Estimate.InvalidVersionMessage))
    ensures 1 <= version <= 40 && |content| == 0 ==> r == Err(Other(Estimate.EmptyContentMessage))
    ensures 1 <= version <= 40 && |content| > 0 ==>
              (r == Diverges <==> Estimate.LoopsForever(content, version, encode))
              && (r.Panic? ==> Estimate.Returns(content, version, encode, Panic(r.reason)))
              && (r.Ok? || r.Err? ==> exists k :: 0 < k <= |content| && Estimate.Returns(content, version, encode, Ok(k))
                                                  && r == Assembled(content, k, emptyLines, encode, render))
  {
    var chunkSize := Estimate.EstimateChunk(content, version, encode);
    match chunkSize {
      case Err(e) =>
        r := Err(Other(e));
      case Panic(reason) =>
        r := Panic(reason);
      case Diverges =>
        r := Diverges;
      case Ok(k) =>
        if |content| > 0 {
          Estimate.OkWithinContent(content, version, encode, k);
        }
        r := AssembleCodes(content, k, emptyLines, encode, render);
    }
  }
}
