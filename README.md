# multiqr, modelled in Dafny

`multiqr` reads ASCII text from standard input and prints it as one or more
QR codes, cutting the text into chunks when a single code would need a
version (size class) above the one requested with `--qr-version`. This
project models the logic of `src/main.rs`:

- **Input filter** (`Sanitize`, from `read_stdin`): newlines are dropped;
  any other byte that is not ASCII, or is an ASCII control, stops the
  filter with the matching message; every other byte is kept, in order.
- **Chunk size estimation** (`Estimate`, `estimate_chunk`): the version
  is checked (1..40), then the content (non-empty); then a loop probes the
  prefix of length `total` with the QR encoder, halving `total` when the
  code is too big or the data too long, growing it by half when the code is
  too small, returning the whole length when the whole content fits below
  the target or when growing reaches the content length, and on an exact
  version match rebalancing the length to `len / (len / total + 1) + 1`.
- **Assembly** (`Assemble`, `qr`): the content is cut into consecutive
  chunks of that size (`slice::chunks`), each chunk is encoded, and the
  renderings are joined with a run of `empty_lines` newlines between
  consecutive codes only.

The QR encoder `QrCode::new` is a parameter `encode: seq<u8> -> EncodeResult`
(a normal or Micro version, or an error, `DataTooLong` being the one the
program tells apart). Its two `panic!` branches (a Micro code, any other
encoder error) and the division by zero that a matched length of 0 would
cause are a `Panic` outcome. The search loop is not guaranteed to stop for
every encoder, and its only state is `total`, which stays within
`0..len` while the loop runs; so the model runs the loop until it either
returns or comes back to a length it already probed, and in the second
case reports `Diverges`, which is proved to hold exactly when the source's
loop never returns (`Run` gives the loop's state after `n` iterations).

Properties proved about the search hold whenever it returns (partial
correctness). Three of them are worth noting: the search does not always
stop (`SearchCanLoopForever`); the exit taken when growing `total` reaches
the content length returns the whole length even when the whole content
was already found to need a version above the target
(`GrowthExitIgnoresFullProbe`); and content whose whole length encodes at
exactly the requested version is still cut into two codes as soon as
it has three bytes (`FullContentMatches`).

Files: `types.dfy` (shared datatypes), `sanitize.dfy`, `estimate.dfy`,
`assemble.dfy`.

## Model

| member | source | states |
|---|---|---|
| Sanitize.FilterInput | src/main.rs:60-72 | the filter loop returns exactly `Sanitized(buffer)`: the input without newlines, or the message chosen by the first rejected byte |
| Sanitize.SanitizedOk | src/main.rs:62-72 | the filter succeeds iff every byte other than a newline is printable ASCII (32..126); on success the output is the input with newlines removed and every output byte is printable |
| Sanitize.SanitizedErr | src/main.rs:62-69 | on failure there is a first non-newline byte outside 32..126, all earlier bytes are newlines or printable, and that byte picks the message: "non ascii" when it is 128 or more, "ascii control" otherwise |
| Sanitize.SanitizedIdempotent | src/main.rs:60-72 | filtering accepted output again accepts it unchanged |
| Sanitize.NewlineIgnored | src/main.rs:62 | a newline anywhere in the input does not change the output |
| Sanitize.NewlineFreeUnchanged | src/main.rs:62-70 | every byte other than a newline is kept in order: newline-free input passes unchanged |
| Sanitize.WithoutNewlinesAppend | src/main.rs:62-70 | newline removal works piecewise over a concatenation (order is preserved) |
| Sanitize.FirstOffenseNone | src/main.rs:62-69 | no byte is rejected iff every non-newline byte is ASCII and not a control |
| Estimate.EstimateChunk | src/main.rs:112-163 | version 0 or above 40 gives "Invalid version" whatever the content; a valid version with empty content gives "Invalid empty content"; these are the only `Err` results; otherwise the result is `Diverges` iff the source loop never returns, and any other result is what the source loop returns |
| Estimate.Search | src/main.rs:121-162 | the loop with `total` starting at the content length never returns `Err`; a returned outcome is the loop's outcome after some number of iterations; `Diverges` is returned only with a cycle of the loop's state |
| Estimate.LoopStep | src/main.rs:123-155 | one loop iteration either continues with a length below the content length or returns; a returned `Ok` size is between 1 and the content length |
| Estimate.Run | src/main.rs:121-156 | after any number of iterations the length stays within the content length, and any `Ok` returned is between 1 and the content length |
| Estimate.Rebalance | src/main.rs:158-161 | with `pieces = len / t + 1` the pieces are at least 2, the new size is between 1 and `t`, and it is the smallest size `r` with `r * pieces > len` |
| Estimate.OkWithinContent | src/main.rs:122-162 | for every encoder, a returned chunk size `c` satisfies `0 < c <= len` (the assertion of the randomized test) |
| Estimate.TotalStaysPositive | src/main.rs:139-151 | if one byte fits a version 1 code, `total` stays within 1..len, no division by zero happens, and with a conforming encoder every return is `Ok` |
| Estimate.ConformingReturnsOk | src/main.rs:122-162 | with an encoder that only answers normal versions or `DataTooLong`, the search never panics: it returns `Ok(c)` with `0 < c <= len` or never returns |
| Estimate.FullContentFits | src/main.rs:131-133 | when the whole content encodes below the requested version, the search returns the content length after the first probe |
| Estimate.OkOrigin | src/main.rs:131-161 | a returned size is either the rebalanced length of a prefix whose code has exactly the requested version, or the whole length right after a probe below the target at the whole length or at a length that grown by half reaches it |
| Estimate.CycleForever | src/main.rs:122-156 | a loop that comes back to a length it was at never returns |
| Estimate.SearchCanLoopForever | src/main.rs:139-147 | for three bytes, version 2 and an encoder needing version 3 for all three bytes, the loop halves to 1 and stays there forever |
| Estimate.FullContentMatches | src/main.rs:136-161 | when the whole content encodes at exactly the requested version, the search returns `len / 2 + 1`, below the length once the content has three bytes |
| Estimate.FiveBytesSplitInTwo | src/main.rs:136-161 | five bytes, version 1 and an encoder answering version 1 give the chunk size 3 |
| Estimate.GrowthExitIgnoresFullProbe | src/main.rs:139-147 | for four bytes, version 2 and an encoder needing version 3 for all four bytes, the search returns 4 |
| Assemble.ChunksConcat | src/main.rs:96 | the chunks concatenated in order are the content |
| Assemble.ChunksShape | src/main.rs:96 | every chunk is non-empty and at most the chunk size long, and all but the last are exactly the chunk size |
| Assemble.ChunkCountBound | src/main.rs:96-97 | content of at most `p * size` bytes gives at most `p` chunks |
| Assemble.RebalancedChunks | src/main.rs:158-160 | cutting at the rebalanced size gives at most `len / t + 1` chunks, none longer than the matched prefix `t` |
| Assemble.AssembleCodes | src/main.rs:92-106 | the loop returns the first encoder error among the chunks, or the renderings of all chunks joined with the empty lines between consecutive ones |
| Assemble.JoinedCons | src/main.rs:98-104 | joining is the first rendering, one separator, then the rest joined |
| Assemble.JoinedLength | src/main.rs:101-103 | the joined text's length is the renderings' total length plus one separator per consecutive pair |
| Assemble.JoinedPlacement | src/main.rs:98-104 | the joined text is the first rendering followed by each later rendering preceded by exactly one separator, with nothing after the last |
| Assemble.FirstFailureAt | src/main.rs:98-99 | the error reported is the one of the first chunk the encoder rejects |
| Assemble.Qr | src/main.rs:83-107 | the estimation errors become `Error::Other`; a panic or divergence of the search is passed on; otherwise the result is the assembly of the content at a chunk size between 1 and the length that the search returns |

## Left out

- Reading standard input (`read_to_end` and its "error reading stdin"): I/O; the filter runs over a given byte sequence.
- Argument parsing (`Params`, `clap`), `main` and `inner_main` printing: command-line and I/O glue.
- QR encoding itself (`QrCode::new`, `qr.version()`): a foreign library; it is the `encode` parameter, assumed deterministic.
- `print_qr` (caption with label, index and version, centring, text art of the code, border): string formatting over a foreign type; it is the `render` parameter.
- Termination of the search loop: not guaranteed; a loop that never returns is the `Diverges` outcome instead of a hang.
- Estimate.LoopStep: `total * 3` is computed on unbounded integers; the source's `usize` product overflows only for contents of more than a third of the address space.
- The randomized test (`rand`, `thread_rng`): only its assertions `0 < chunk <= size` are modelled (`OkWithinContent`); its sizes may be 0, where `estimate_chunk` returns `Err` and `unwrap` would panic.
