/** The bounded download of a locked archive from the first mirror that supplies it. */
module Download {
  import opened Ordering
  import opened Digests

  /** What follows the last chunk: the end, an error of a caught type, or an error of any other type. */
  datatype Ending = Complete | Caught | Uncaught

  /**
   * How one mirror answers: opening it fails, or it delivers chunks, of which the first empty one ends
   * the response.
   */
  datatype Mirror = Unreachable(caught: bool) | Serves(chunks: seq<Bytes>, ending: Ending)

  /** The bytes read until the first empty chunk. */
  function Received(chunks: seq<Bytes>): Bytes {
    if chunks == [] || chunks[0] == [] then [] else chunks[0] + Received(chunks[1..])
  }

  /** The response ends with an empty chunk. */
  predicate EndsProperly(chunks: seq<Bytes>) {
    chunks != [] && (chunks[0] == [] || EndsProperly(chunks[1..]))
  }

  /** The mirror delivers a whole response whose size and digest are the locked ones. */
  predicate Supplies(m: Mirror, digest: Digest, size: nat) {
    && m.Serves? && (EndsProperly(m.chunks) || m.ending.Complete?)
    && |Received(m.chunks)| == size && Sha256(Received(m.chunks)) == digest
  }

  /** An error of a type that is not caught comes up, and not after the size was exceeded. */
  predicate Escapes(m: Mirror, size: nat) {
    match m
    case Unreachable(caught) => !caught
    case Serves(chunks, ending) => ending.Uncaught? && !EndsProperly(chunks) && |Received(chunks)| <= size
  }

  /** The first `n` mirrors were tried in vain. */
  ghost predicate NoneBefore(mirrors: seq<Mirror>, n: nat, digest: Digest, size: nat)
    requires n <= |mirrors|
  {
    forall i :: 0 <= i < n ==> !Supplies(mirrors[i], digest, size) && !Escapes(mirrors[i], size)
  }

  /** The first mirror that supplies the archive, with no uncaught error before. */
  ghost predicate IsFirst(mirrors: seq<Mirror>, k: nat, digest: Digest, size: nat) {
    k < |mirrors| && Supplies(mirrors[k], digest, size) && NoneBefore(mirrors, k, digest, size)
  }

  /** The first mirror whose error escapes, with no supplier before. */
  ghost predicate IsFirstEscape(mirrors: seq<Mirror>, k: nat, digest: Digest, size: nat) {
    k < |mirrors| && Escapes(mirrors[k], size) && NoneBefore(mirrors, k, digest, size)
  }

  /** How an attempt or the whole download ends: it returns, raises the tool's own error, or lets another one out. */
  datatype Outcome = Returned | Raised | Escaped

  /** What an escaped error leaves behind at the temporary path. */
  function LeftBehind(m: Mirror): Option<Bytes> {
    if m.Serves? then Some(Received(m.chunks)) else None
  }

  lemma {:induction false} PrefixIsShorter(chunks: seq<Bytes>, n: nat)
    requires n <= |chunks|
    ensures |Received(chunks[..n])| <= |Received(chunks)|
  {
    if n > 0 && chunks[0] != [] {
      assert chunks[..n][0] == chunks[0] && chunks[..n][1..] == chunks[1..][..n - 1];
      PrefixIsShorter(chunks[1..], n - 1);
    }
  }

  lemma {:induction false} OneMoreChunk(chunks: seq<Bytes>, n: nat)
    requires n < |chunks| && forall i :: 0 <= i < n ==> chunks[i] != []
    ensures Received(chunks[..n + 1]) == Received(chunks[..n]) + chunks[n]
  {
    assert chunks[..n + 1][0] == chunks[0];
    if n == 0 {
      assert chunks[..1] == [chunks[0]] && [chunks[0]][1..] == [];
      assert chunks[..0] == [];
      assert Received([]) == [];
    } else {
      assert chunks[..n + 1][1..] == chunks[1..][..n] && chunks[..n][1..] == chunks[1..][..n - 1];
      OneMoreChunk(chunks[1..], n - 1);
      var rest := Received(chunks[1..][..n - 1]);
      assert chunks[0] + (rest + chunks[n]) == (chunks[0] + rest) + chunks[n];
    }
  }

  lemma {:induction false} StopsAtEmpty(chunks: seq<Bytes>, n: nat)
    requires n < |chunks| && chunks[n] == [] && forall i :: 0 <= i < n ==> chunks[i] != []
    ensures Received(chunks) == Received(chunks[..n]) && EndsProperly(chunks)
  {
    if n > 0 {
      assert chunks[..n][0] == chunks[0] && chunks[..n][1..] == chunks[1..][..n - 1];
      StopsAtEmpty(chunks[1..], n - 1);
    }
  }

  lemma {:induction false} NeverEnds(chunks: seq<Bytes>)
    requires forall i :: 0 <= i < |chunks| ==> chunks[i] != []
    ensures !EndsProperly(chunks)
  {
    if chunks != [] { NeverEnds(chunks[1..]); }
  }

  /** The destination and the temporary file beside it, with the largest size the latter ever had. */
  class Cache {
    var destination: Option<Bytes>
    var temporary: Option<Bytes>
    ghost var peak: nat

    constructor (destination: Option<Bytes>)
      ensures this.destination == destination && temporary == None && peak == 0
    {
      this.destination := destination;
      temporary, peak := None, 0;
    }

    method Append(chunk: Bytes)
      requires temporary.Some?
      modifies this`temporary, this`peak
      ensures temporary == Some(old(temporary).value + chunk)
      ensures peak == if |temporary.value| > old(peak) then |temporary.value| else old(peak)
    {
      temporary := Some(temporary.value + chunk);
      peak := if |temporary.value| > peak then |temporary.value| else peak;
    }

    /**
     * `_download_archive_from_url`. It writes nothing beyond the declared size; `Raised` stands for the
     * errors that the caller catches.
     */
    method FromMirror(m: Mirror, digest: Digest, size: nat) returns (r: Outcome)
      requires temporary == None && peak <= size
      modifies this`temporary, this`peak
      ensures r.Returned? <==> Supplies(m, digest, size)
      ensures r.Escaped? <==> Escapes(m, size)
      ensures r.Returned? ==> temporary == Some(Received(m.chunks))
      ensures r.Escaped? ==> temporary == LeftBehind(m)
      ensures peak <= size
    {
      if m.Unreachable? { return if m.caught then Raised else Escaped; }
      var total := 0;
      temporary := Some([]);
      var n := 0;
      while n < |m.chunks| && m.chunks[n] != []
        invariant 0 <= n <= |m.chunks|
        invariant forall i :: 0 <= i < n ==> m.chunks[i] != []
        invariant temporary == Some(Received(m.chunks[..n]))
        invariant total == |Received(m.chunks[..n])| <= size && peak <= size
      {
        OneMoreChunk(m.chunks, n);
        total := total + |m.chunks[n]|;
        if total > size {
          PrefixIsShorter(m.chunks, n + 1);
          return Raised;
        }
        Append(m.chunks[n]);
        n := n + 1;
      }
      if n == |m.chunks| {
        assert m.chunks[..n] == m.chunks;
        NeverEnds(m.chunks);
        if m.ending.Caught? { return Raised; }
        if m.ending.Uncaught? { return Escaped; }
      } else {
        StopsAtEmpty(m.chunks, n);
      }
      r := if total == size && Sha256(temporary.value) == digest then Returned else Raised;
    }

    /**
     * `_download_archive`: try the mirrors in order. It returns exactly when some mirror supplies the
     * locked archive before any uncaught error, and then the destination holds that archive; otherwise
     * the destination is as it was. The temporary file was never larger than declared, and it stays
     * only if an uncaught error left it behind, which ends the attempts as well.
     */
    method DownloadArchive(mirrors: seq<Mirror>, digest: Digest, size: nat) returns (r: Outcome)
      requires temporary == None && peak == 0
      modifies this
      ensures r.Returned? <==> exists k: nat :: IsFirst(mirrors, k, digest, size)
      ensures r.Escaped? <==> exists k: nat :: IsFirstEscape(mirrors, k, digest, size)
      ensures forall k: nat :: IsFirst(mirrors, k, digest, size) ==>
        destination == Some(Received(mirrors[k].chunks)) && temporary == None
      ensures forall k: nat :: IsFirstEscape(mirrors, k, digest, size) ==> temporary == LeftBehind(mirrors[k])
      ensures !r.Returned? ==> destination == old(destination)
      ensures r.Returned? ==>
        destination.Some? && |destination.value| == size && Sha256(destination.value) == digest
      ensures r.Raised? ==> temporary == None
      ensures peak <= size
    {
      temporary := Some([]);
      for k := 0 to |mirrors|
        invariant NoneBefore(mirrors, k, digest, size)
        invariant destination == old(destination) && peak <= size
      {
        temporary := None;
        r := FromMirror(mirrors[k], digest, size);
        if r.Raised? { continue; }
        if r.Escaped? {
          OneEnd(mirrors, k, digest, size);
          return;
        }
        destination, temporary := temporary, None;
        OneEnd(mirrors, k, digest, size);
        return;
      }
      temporary := None;
      return Raised;
    }
  }

  lemma SuppliersDoNotEscape(m: Mirror, digest: Digest, size: nat)
    requires Supplies(m, digest, size)
    ensures !Escapes(m, size)
  {
  }

  /** The first mirror that ends the attempts is the only one that does. */
  lemma OneEnd(mirrors: seq<Mirror>, k: nat, digest: Digest, size: nat)
    requires k < |mirrors| && NoneBefore(mirrors, k, digest, size)
    requires Supplies(mirrors[k], digest, size) || Escapes(mirrors[k], size)
    ensures IsFirst(mirrors, k, digest, size) <==> Supplies(mirrors[k], digest, size)
    ensures IsFirstEscape(mirrors, k, digest, size) <==> !Supplies(mirrors[k], digest, size)
    ensures forall j: nat :: IsFirst(mirrors, j, digest, size) || IsFirstEscape(mirrors, j, digest, size) ==> j == k
  {
    hide Supplies, Escapes;
    if Supplies(mirrors[k], digest, size) { SuppliersDoNotEscape(mirrors[k], digest, size); }
  }
}
