/** The binary files the library writes and reads, as sequences of tokens.
    The C++ code writes raw int32 values and bools with ofstream::write and
    reads them back with ifstream::read; here each such field is one token. */
module Streams {
  import opened Outcomes

  /** One field of the layout: an int-sized number or a bool flag. */
  datatype Token = Num(n: int) | Flag(b: bool)

  /** The tokens for a run of numbers, written one after the other. */
  function NumTokens(xs: seq<int>): (r: seq<Token>)
    ensures |r| == |xs|
    ensures forall i :: 0 <= i < |xs| ==> r[i] == Num(xs[i])
  {
    seq(|xs|, i requires 0 <= i < |xs| => Num(xs[i]))
  }

  /** Reads one number from the front of a stream. */
  function TakeNum(s: seq<Token>): (r: Result<(int, seq<Token>)>)
    ensures r.Success? <==> |s| > 0 && s[0].Num?
    ensures r.Success? ==> r.value.0 == s[0].n && r.value.1 == s[1..]
  {
    if |s| > 0 && s[0].Num? then Success((s[0].n, s[1..])) else Failure(DecodeError)
  }

  /** Reads one flag from the front of a stream. */
  function TakeFlag(s: seq<Token>): (r: Result<(bool, seq<Token>)>)
    ensures r.Success? <==> |s| > 0 && s[0].Flag?
    ensures r.Success? ==> r.value.0 == s[0].b && r.value.1 == s[1..]
  {
    if |s| > 0 && s[0].Flag? then Success((s[0].b, s[1..])) else Failure(DecodeError)
  }

  /** A reader returned `r` and left `rest` unread exactly as the decoding
      function `d` prescribes. */
  predicate Delivered<T(==)>(d: Result<(T, seq<Token>)>, r: Result<T>, rest: seq<Token>) {
    match d
    case Success(v) => r == Success(v.0) && rest == v.1
    case Failure(e) => r == Failure(e)
  }

  /** Stands for std::ofstream: everything written so far. */
  class OutStream {
    var written: seq<Token>

    constructor ()
      ensures written == []
    {
      written := [];
    }

    method Write(t: Token)
      modifies this
      ensures written == old(written) + [t]
    {
      written := written + [t];
    }
  }

  /** Stands for std::ifstream: the part of the file not read yet. */
  class InStream {
    var rest: seq<Token>

    constructor (data: seq<Token>)
      ensures rest == data
    {
      rest := data;
    }

    method ReadNum() returns (r: Result<int>)
      modifies this
      ensures Delivered(TakeNum(old(rest)), r, rest)
    {
      var d := TakeNum(rest);
      if d.Success? {
        r := Success(d.value.0);
        rest := d.value.1;
      } else {
        r := Failure(d.error);
      }
    }

    method ReadFlag() returns (r: Result<bool>)
      modifies this
      ensures Delivered(TakeFlag(old(rest)), r, rest)
    {
      var d := TakeFlag(rest);
      if d.Success? {
        r := Success(d.value.0);
        rest := d.value.1;
      } else {
        r := Failure(d.error);
      }
    }
  }
}
