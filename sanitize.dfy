/** The byte filter of `read_stdin`: newlines are dropped, any other byte
    must be printable ASCII, and the surviving bytes are kept in order.
    Reading standard input itself is not modelled; the filter runs over
    the bytes already read. */
module Sanitize {
  import opened Types

  const Newline: u8 := 10
  const NonAsciiMessage := "Standard input contains non ascii chars"
  const ControlMessage := "Standard input contains ascii control chars"

  /** `char::from(b).is_ascii()`: a Latin-1 code point below 128. */
  predicate IsAscii(b: u8) { b < 128 }

  /** `char::is_ascii_control`: U+0000..U+001F and U+007F. */
  predicate IsAsciiControl(b: u8) { b < 32 || b == 127 }

  /** A byte the filter accepts: not a newline, ASCII, and not a control. */
  predicate Accepted(b: u8) { b != Newline && IsAscii(b) && !IsAsciiControl(b) }

  /** The bytes of `s` with every newline removed, in their original order. */
  function WithoutNewlines(s: seq<u8>): seq<u8>
  {
    if s == [] then []
    else WithoutNewlines(s[..|s| - 1]) + (if s[|s| - 1] == Newline then [] else [s[|s| - 1]])
  }

  /** The first byte of `s` that is neither a newline nor accepted. */
  function FirstOffense(s: seq<u8>): Option<u8>
  {
    if s == [] then None
    else if s[0] != Newline && !Accepted(s[0]) then Some(s[0])
    else FirstOffense(s[1..])
  }

  /** The message for a rejected byte: the ASCII test comes first. */
  function RejectMessage(b: u8): string
  {
    if !IsAscii(b) then NonAsciiMessage else ControlMessage
  }

  /** What the filter returns for `s`. */
  function Sanitized(s: seq<u8>): Outcome<seq<u8>, string>
  {
    match FirstOffense(s)
    case None => Ok(WithoutNewlines(s))
    case Some(b) => Err(RejectMessage(b))
  }

  /** Filter loop of `read_stdin`, over a buffer already read. */
  method FilterInput(buffer: seq<u8>) returns (r: Outcome<seq<u8>, string>)
    ensures r == Sanitized(buffer)
  {
    var result: seq<u8> := [];
    var i := 0;
    while i < |buffer|
      invariant 0 <= i <= |buffer|
      invariant FirstOffense(buffer[..i]) == None
      invariant result == WithoutNewlines(buffer[..i])
    {
      var el := buffer[i];
      assert buffer[..i + 1] == buffer[..i] + [el];
      assert buffer[..i + 1][..i] == buffer[..i];
      FirstOffenseAppend(buffer[..i], [el]);
      if el != Newline {
        if !IsAscii(el) {
          SplitAt(buffer, i);
          return Err(NonAsciiMessage);
        }
        if IsAsciiControl(el) {
          SplitAt(buffer, i);
          return Err(ControlMessage);
        }
        result := result + [el];
      }
      i := i + 1;
    }
    assert buffer[..i] == buffer;
    r := Ok(result);
  }

  /** Scanning for the first offense over a concatenation. */
  lemma {:induction false} FirstOffenseAppend(a: seq<u8>, b: seq<u8>)
    ensures FirstOffense(a + b) == if FirstOffense(a) == None then FirstOffense(b) else FirstOffense(a)
  {
    if a != [] {
      assert (a + b)[0] == a[0];
      assert (a + b)[1..] == a[1..] + b;
      FirstOffenseAppend(a[1..], b);
    } else {
      assert a + b == b;
    }
  }

  /** A clean prefix followed by an offending byte decides the outcome. */
  lemma SplitAt(s: seq<u8>, i: nat)
    requires i < |s| && FirstOffense(s[..i]) == None
    requires s[i] != Newline && !Accepted(s[i])
    ensures FirstOffense(s) == Some(s[i])
  {
    assert s == s[..i] + s[i..];
    FirstOffenseAppend(s[..i], s[i..]);
  }

  /** Removing newlines from a concatenation works piecewise. */
  lemma {:induction false} WithoutNewlinesAppend(a: seq<u8>, b: seq<u8>)
    ensures WithoutNewlines(a + b) == WithoutNewlines(a) + WithoutNewlines(b)
    decreases |b|
  {
    if b == [] {
      assert a + b == a;
    } else {
      assert (a + b)[..|a + b| - 1] == a + b[..|b| - 1];
      WithoutNewlinesAppend(a, b[..|b| - 1]);
    }
  }

  /** A newline anywhere in the input is ignored. */
  lemma NewlineIgnored(a: seq<u8>, b: seq<u8>)
    ensures WithoutNewlines(a + [Newline] + b) == WithoutNewlines(a + b)
  {
    WithoutNewlinesAppend(a + [Newline], b);
    WithoutNewlinesAppend(a, [Newline]);
    WithoutNewlinesAppend(a, b);
    assert [Newline][..0] == [];
  }

  /** Every byte other than a newline is kept: a newline-free input passes unchanged. */
  lemma {:induction false} NewlineFreeUnchanged(s: seq<u8>)
    requires forall i :: 0 <= i < |s| ==> s[i] != Newline
    ensures WithoutNewlines(s) == s
  {
    if s != [] {
      NewlineFreeUnchanged(s[..|s| - 1]);
    }
  }

  /** No offense is found exactly when every non-newline byte is accepted. */
  lemma {:induction false} FirstOffenseNone(s: seq<u8>)
    ensures FirstOffense(s) == None <==> forall i :: 0 <= i < |s| && s[i] != Newline ==> Accepted(s[i])
  {
    if s != [] {
      FirstOffenseNone(s[1..]);
      assert forall i :: 1 <= i < |s| ==> s[i] == s[1..][i - 1];
    }
  }

  /** The offense found is the first non-newline byte that is not accepted. */
  lemma {:induction false} FirstOffenseSome(s: seq<u8>, b: u8)
    requires FirstOffense(s) == Some(b)
    ensures exists i :: 0 <= i < |s| && s[i] == b && b != Newline && !Accepted(b)
                        && forall j :: 0 <= j < i ==> s[j] == Newline || Accepted(s[j])
  {
    if s[0] != Newline && !Accepted(s[0]) {
      assert s[0] == b;
    } else {
      FirstOffenseSome(s[1..], b);
      var i :| 0 <= i < |s[1..]| && s[1..][i] == b && b != Newline && !Accepted(b)
               && forall j :: 0 <= j < i ==> s[1..][j] == Newline || Accepted(s[1..][j]);
      assert s[i + 1] == b;
      assert forall j :: 1 <= j < i + 1 ==> s[j] == s[1..][j - 1];
    }
  }

  /** The filter succeeds exactly when no byte other than a newline is
      non-ASCII or an ASCII control; its output is then the input without
      newlines, and every output byte is printable ASCII (32..126). */
  lemma SanitizedOk(s: seq<u8>)
    ensures Sanitized(s).Ok? <==> forall i :: 0 <= i < |s| && s[i] != Newline ==> 32 <= s[i] <= 126
    ensures Sanitized(s).Ok? ==> Sanitized(s).value == WithoutNewlines(s)
                                 && forall j :: 0 <= j < |Sanitized(s).value| ==> 32 <= Sanitized(s).value[j] <= 126
  {
    FirstOffenseNone(s);
    if Sanitized(s).Ok? {
      OutputAccepted(s);
    }
  }

  /** Without an offense, every byte removing newlines leaves is accepted. */
  lemma {:induction false} OutputAccepted(s: seq<u8>)
    requires forall i :: 0 <= i < |s| && s[i] != Newline ==> Accepted(s[i])
    ensures forall j :: 0 <= j < |WithoutNewlines(s)| ==> Accepted(WithoutNewlines(s)[j])
  {
    if s != [] {
      OutputAccepted(s[..|s| - 1]);
    }
  }

  /** On failure, the first rejected byte decides the message. */
  lemma SanitizedErr(s: seq<u8>)
    requires Sanitized(s).Err?
    ensures exists i :: 0 <= i < |s| && s[i] != Newline && !(32 <= s[i] <= 126)
                        && Sanitized(s).error == (if s[i] >= 128 then NonAsciiMessage else ControlMessage)
                        && forall j :: 0 <= j < i ==> s[j] == Newline || 32 <= s[j] <= 126
  {
    FirstOffenseSome(s, FirstOffense(s).value);
  }

  /** Filtering is idempotent: accepted output is accepted again, unchanged. */
  lemma SanitizedIdempotent(s: seq<u8>)
    requires Sanitized(s).Ok?
    ensures Sanitized(Sanitized(s).value) == Sanitized(s)
  {
    var t := Sanitized(s).value;
    FirstOffenseNone(s);
    OutputAccepted(s);
    NewlineFreeUnchanged(t);
    FirstOffenseNone(t);
  }
}
