/** `cor::mk_error_message`: formats an error message with `snprintf`,
    retrying with a doubled buffer until the text fits or the buffer has
    reached 64 KiB. The formatting itself is not modelled: `snprintf` is
    described by the complete text it would produce for the format string
    and the arguments, or by its failure. */
module ErrorMessage {
  import opened Optional

  /** The buffer size at which no further attempt is made. */
  const MaxBuffer: nat := 64 * 1024

  /** What `snprintf(buf, n, info, args...)` makes of the format string and
      its arguments: the complete text, or an output error (negative return). */
  datatype Formatted = Complete(chars: string) | OutputError

  /** A string of `n` NUL characters, as `std::string(n, 0)` and `resize`
      produce. */
  function Zeros(n: nat): (z: string)
    ensures |z| == n
    ensures forall i :: 0 <= i < n ==> z[i] == '\0'
  {
    seq(n, _ => '\0')
  }

  /** `snprintf` into the whole of `buf`: the buffer afterwards and the
      return value. At most `|buf| - 1` characters of the text are stored,
      followed by a NUL; the return value is the length of the complete
      text. On an output error the buffer is left as it was. */
  function Snprintf(buf: string, out: Formatted): (r: (string, int))
    ensures |r.0| == |buf|
    ensures out.Complete? ==> r.1 == |out.chars|
    ensures out.OutputError? ==> r.1 < 0
  {
    match out
    case OutputError => (buf, -1)
    case Complete(cs) =>
      if |buf| == 0 then (buf, |cs|)
      else
        var k := if |cs| < |buf| - 1 then |cs| else |buf| - 1;
        (cs[..k] + ['\0'] + buf[k + 1..], |cs|)
  }

  /** The test of the loop: the return value is non-negative and below
      the buffer size, so the complete text was stored. */
  predicate Succeeds(size: nat, out: Formatted) {
    out.Complete? && |out.chars| < size
  }

  /** The last buffer size tried when the first one is `n`: sizes double
      while they stay below `MaxBuffer`. */
  function LastAttempt(n: nat): (r: nat)
    requires 0 < n < MaxBuffer
    ensures n <= r < MaxBuffer <= 2 * r
    decreases MaxBuffer - n
  {
    if 2 * n >= MaxBuffer then n else LastAttempt(2 * n)
  }

  /** The message fits: some attempt gets the whole text. */
  predicate Fits(len: nat, out: Formatted) {
    0 < 2 * len < MaxBuffer && out.Complete? && |out.chars| < LastAttempt(2 * len)
  }

  /** The buffer after an attempt of size `n` that did not succeed. */
  function Failed(n: nat, out: Formatted): string {
    Snprintf(Zeros(n), out).0
  }

  /** The result when every attempt fails: the buffer of the last attempt,
      doubled once more with NULs; no attempt at all when the first size
      is already 64 KiB or more. */
  function Abandoned(len: nat, out: Formatted): string {
    if 2 * len >= MaxBuffer || len == 0 then Zeros(2 * len)
    else
      var m := LastAttempt(2 * len);
      Failed(m, out) + Zeros(m)
  }

  /** A failed attempt overwrites the whole buffer of a failed smaller
      attempt that was doubled with NULs. */
  lemma FailedAgain(m: nat, out: Formatted)
    requires m >= 1 && !Succeeds(2 * m, out)
    ensures Snprintf(Failed(m, out) + Zeros(m), out).0 == Failed(2 * m, out)
  {
    match out
    case OutputError =>
      assert Failed(m, out) + Zeros(m) == Zeros(2 * m);
    case Complete(cs) =>
  }

  /** A successful attempt stores the complete text, then a NUL. */
  lemma StoredWhole(buf: string, out: Formatted)
    requires Succeeds(|buf|, out)
    ensures Snprintf(buf, out).0[..|out.chars|] == out.chars
  {
  }

  /** An attempt that succeeds in the chain of sizes starting at `2 * len`
      means the message fits. */
  lemma SucceededFits(len: nat, n: nat, out: Formatted)
    requires 0 < 2 * len < MaxBuffer && 0 < n < MaxBuffer
    requires LastAttempt(n) == LastAttempt(2 * len) && Succeeds(n, out)
    ensures Fits(len, out)
  {
  }

  /** When the last size of the chain fails, the message does not fit and
      the result is the abandoned buffer. */
  lemma ExhaustedAbandons(len: nat, m: nat, out: Formatted)
    requires 0 < 2 * len < MaxBuffer && 0 < m < MaxBuffer <= 2 * m
    requires LastAttempt(m) == LastAttempt(2 * len) && !Succeeds(m, out)
    ensures !Fits(len, out)
    ensures Abandoned(len, out) == Failed(m, out) + Zeros(m)
  {
    assert LastAttempt(m) == m;
  }

  /** `k` buffer sizes starting from `first`, each twice the one before. */
  function Doubling(first: nat, k: nat): (sizes: seq<nat>)
    ensures |sizes| == k
    ensures k > 0 ==> sizes[0] == first
  {
    if k == 0 then []
    else
      var before := Doubling(first, k - 1);
      before + [if k == 1 then first else 2 * before[k - 2]]
  }

  lemma {:induction false} DoublingDoubles(first: nat, k: nat, i: nat)
    requires 0 < i < k
    ensures Doubling(first, k)[i] == 2 * Doubling(first, k)[i - 1]
  {
    if i < k - 1 {
      DoublingDoubles(first, k - 1, i);
    }
  }

  /** The sizes the loop has tried for a format string of `len` characters:
      doubling from `2 * len`, all below `MaxBuffer`, every attempt but the
      last one failed, all in the chain that ends at `LastAttempt(2 * len)`. */
  ghost predicate Chain(len: nat, sizes: seq<nat>, out: Formatted) {
    && len > 0
    && sizes == Doubling(2 * len, |sizes|)
    && (forall i :: 0 <= i < |sizes| ==> 2 * len <= sizes[i] < MaxBuffer)
    && (forall i :: 0 <= i < |sizes| - 1 ==> !Succeeds(sizes[i], out))
    && (sizes != [] ==> LastAttempt(sizes[|sizes| - 1]) == LastAttempt(2 * len))
  }

  /** The buffer the loop holds before its next attempt: `2 * len` NULs at
      first, then the failed buffer of the last size doubled with NULs. */
  function Pending(len: nat, sizes: seq<nat>, out: Formatted): (buf: string)
    ensures |buf| == if sizes == [] then 2 * len else 2 * sizes[|sizes| - 1]
  {
    if sizes == [] then Zeros(2 * len)
    else Failed(sizes[|sizes| - 1], out) + Zeros(sizes[|sizes| - 1])
  }

  /** One more attempt, with the pending buffer, keeps the chain; if it
      fails, the buffer it leaves doubled with NULs is the next pending
      buffer; if it succeeds, the buffer starts with the complete text. */
  lemma AttemptStep(len: nat, sizes: seq<nat>, out: Formatted)
    requires len > 0 && Chain(len, sizes, out)
    requires sizes != [] ==> !Succeeds(sizes[|sizes| - 1], out)
    requires |Pending(len, sizes, out)| < MaxBuffer
    ensures Chain(len, sizes + [|Pending(len, sizes, out)|], out)
    ensures var n := |Pending(len, sizes, out)|;
            !Succeeds(n, out) ==>
              Snprintf(Pending(len, sizes, out), out).0 + Zeros(n) == Pending(len, sizes + [n], out)
    ensures Succeeds(|Pending(len, sizes, out)|, out) ==>
              Snprintf(Pending(len, sizes, out), out).0[..|out.chars|] == out.chars
  {
    var buf := Pending(len, sizes, out);
    var n := |buf|;
    var next := sizes + [n];
    if sizes != [] {
      var m := sizes[|sizes| - 1];
      assert LastAttempt(n) == LastAttempt(m);
      if !Succeeds(n, out) {
        FailedAgain(m, out);
      }
      if |next| > 1 {
        assert next[|next| - 2] == m;
      }
    } else {
      assert buf == Zeros(n);
    }
    if Succeeds(n, out) {
      StoredWhole(buf, out);
    }
  }

  /** The retry loop of `mk_error_message(info, args...)` for a format
      string of `len > 0` characters. `sizes` lists the buffer sizes passed
      to `snprintf`, in order. */
  method Format(len: nat, out: Formatted) returns (res: string, ghost sizes: seq<nat>)
    requires len > 0
    ensures sizes == [] <==> 2 * len >= MaxBuffer
    ensures sizes == Doubling(2 * len, |sizes|)
    ensures forall i :: 0 <= i < |sizes| ==> sizes[i] < MaxBuffer
    ensures forall i :: 0 <= i < |sizes| - 1 ==> !Succeeds(sizes[i], out)
    ensures Fits(len, out) ==> res == out.chars && Succeeds(sizes[|sizes| - 1], out)
    ensures !Fits(len, out) ==> |res| >= MaxBuffer && res == Abandoned(len, out)
  {
    sizes := [];
    res := Zeros(len * 2);
    var done := false;
    while !done && |res| < MaxBuffer
      invariant Chain(len, sizes, out)
      invariant !done ==> res == Pending(len, sizes, out)
      invariant !done && sizes != [] ==> !Succeeds(sizes[|sizes| - 1], out)
      invariant done ==> sizes != [] && Succeeds(sizes[|sizes| - 1], out) && res == out.chars
      decreases if done then 0 else MaxBuffer + 1 - |res|
    {
      var n := |res|;
      AttemptStep(len, sizes, out);
      var attempt := Snprintf(res, out);
      sizes := sizes + [n];
      if 0 <= attempt.1 < n {
        res := attempt.0[..attempt.1];
        done := true;
      } else {
        res := attempt.0 + Zeros(n);
      }
    }
    if done {
      SucceededFits(len, sizes[|sizes| - 1], out);
    } else if sizes != [] {
      ExhaustedAbandons(len, sizes[|sizes| - 1], out);
    }
  }

  /** `mk_error_message(info)` when `args` is `None`, and
      `mk_error_message(info, args...)` otherwise: the message unchanged
      without arguments or with an empty format string, otherwise the
      result of the retry loop. */
  method MkErrorMessage(info: string, args: Option<Formatted>) returns (res: string)
    ensures args.None? || |info| == 0 ==> res == info
    ensures args.Some? && Fits(|info|, args.value) ==> res == args.value.chars
    ensures args.Some? && |info| > 0 && !Fits(|info|, args.value) ==>
              |res| >= MaxBuffer && res == Abandoned(|info|, args.value)
  {
    if args.None? || |info| == 0 {
      return info;
    }
    ghost var sizes;
    res, sizes := Format(|info|, args.value);
  }

  /** Any complete text shorter than 32 KiB is returned whole (when the
      format string is shorter than 32 KiB too), and no text of 64 KiB or
      more ever is. */
  lemma FitsBounds(len: nat, out: Formatted)
    ensures 0 < 2 * len < MaxBuffer && out.Complete? && |out.chars| < MaxBuffer / 2 ==> Fits(len, out)
    ensures out.Complete? && |out.chars| >= MaxBuffer ==> !Fits(len, out)
  {
    if 0 < 2 * len < MaxBuffer {
      var r := LastAttempt(2 * len);
    }
  }
}
