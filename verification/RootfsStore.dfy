/**
  bp_rootfs_install and bp_rootfs_verify_installed: a recovery archive and its
  checksum are replaced one after the other, and read back together.
*/
module RootfsStore {
  import opened CStrings
  import opened Disk

  // ----- Checksum files

  /** What ends the digest in a checksum file. */
  predicate EndsDigest(c: char) { c == '\0' || c == ' ' || c == '\t' || c == '\n' }

  /** The first size characters, if none of them ends the digest. */
  function StoredDigest(text: string, size: nat): Option<string> {
    if |text| >= size && forall i :: 0 <= i < size ==> !EndsDigest(text[i]) then Some(text[..size]) else None
  }

  /** The loop of bp_rootfs_verify_installed over the checksum. */
  method ReadDigest(text: string, size: nat) returns (r: Option<string>)
    ensures r == StoredDigest(text, size)
  {
    var index := 0;
    while index < size && index < |text| && text[index] != '\0' && text[index] != ' '
          && text[index] != '\t' && text[index] != '\n'
      invariant 0 <= index <= size && index <= |text|
      invariant forall i :: 0 <= i < index ==> !EndsDigest(text[i])
    {
      index := index + 1;
    }
    return if index == size then Some(text[..index]) else None;
  }

  /** A digest is read from a text that starts with 64 characters other than NUL,
      blank, tab and line feed. */
  lemma {:induction false} StoredDigestIff(text: string, d: string)
    ensures StoredDigest(text, 64) == Some(d) <==>
              && |text| >= 64 && d == text[..64]
              && forall i :: 0 <= i < 64 ==> text[i] != '\0' && text[i] != ' ' && text[i] != '\t' && text[i] != '\n'
  {
  }

  predicate HexDigest(d: string) { |d| == 64 && forall i :: 0 <= i < |d| ==> !EndsDigest(d[i]) }

  lemma {:induction false} DigestIsStored(digest: string, rest: string)
    requires HexDigest(digest)
    ensures StoredDigest(digest + rest, 64) == Some(digest)
  {
    assert (digest + rest)[..64] == digest;
  }

  /** The files, the digest of a file, what bp_rootfs_verify accepts, the words
      behind a digest, and the default host configuration. */
  datatype Store = Store(archive: string, checksum: string, config: string,
                         digest: string -> string, accepts: string -> bool, suffix: string, hostDefault: string)
  {
    ghost predicate Usable() {
      && archive != checksum && config != archive && config != checksum
      && !IsTemporary(archive) && !IsTemporary(checksum) && !IsTemporary(config) && |suffix| <= 64
      && forall data {:trigger digest(data)} :: HexDigest(digest(data))
    }

    function ChecksumText(data: string): string { digest(data) + suffix }

    function NodeAt(m: Names, name: string): Option<Node> { if name in m then Some(m[name]) else None }

    /** The installed archive is accepted: it has the stored digest, and it verifies. */
    predicate Accepted(m: Names) {
      && archive in m && checksum in m && m[archive].Blob? && m[checksum].Blob? && |m[checksum].data| <= 1024
      && StoredDigest(m[checksum].data, 64) == Some(digest(m[archive].data))
      && accepts(m[archive].data)
    }

    /** bp_rootfs_verify_installed */
    method VerifyInstalled(d: Directory) returns (ok: bool)
      ensures ok ==> Accepted(d.state.Now())
      ensures d.Reliable() ==> ok == Accepted(d.state.Now())
    {
      var now := d.state.Now();
      ok := true;
      if !d.Reliable() {
        ok := *;
      }
      if !ok || checksum !in now || !now[checksum].Blob? || |now[checksum].data| > 1024 {
        return false;
      }
      if archive !in now || !now[archive].Blob? {
        return false;
      }
      var expected := ReadDigest(now[checksum].data, 64);
      ok := expected == Some(digest(now[archive].data)) && accepts(now[archive].data);
    }

    // ----- Replacement

    /** Before the new archive is there for good: old or new archive, old checksum. */
    function Copying(archives: set<Option<Node>>, checksums: set<Option<Node>>, data: string): Claim {
      (m: Names) => (NodeAt(m, archive) in archives || NodeAt(m, archive) == Some(Blob(data, true)))
                    && NodeAt(m, checksum) in checksums
    }

    /** Afterwards: the new archive, old or new checksum. */
    function Recording(checksums: set<Option<Node>>, data: string): Claim {
      (m: Names) => NodeAt(m, archive) == Some(Blob(data, true))
                    && (NodeAt(m, checksum) in checksums || NodeAt(m, checksum) == Some(Blob(ChecksumText(data), true)))
    }

    function Replacing(archives: set<Option<Node>>, checksums: set<Option<Node>>, data: string): Claim {
      (m: Names) => Copying(archives, checksums, data)(m) || Recording(checksums, data)(m)
    }

    /** The nodes that a crash can leave under a name. */
    function Found(s: State, name: string): set<Option<Node>> { set image | image in s.Images() :: NodeAt(image, name) }

    lemma {:induction false} ClaimsAreBlind(archives: set<Option<Node>>, checksums: set<Option<Node>>, data: string)
      requires Usable()
      ensures Blind(Copying(archives, checksums, data)) && Blind(Recording(checksums, data))
      ensures Admits(Copying(archives, checksums, data), archive, Blob(data, true))
      ensures Admits(Recording(checksums, data), checksum, Blob(ChecksumText(data), true))
    {
    }

    /** The new pair is in place. */
    function Recorded(data: string): Claim {
      (m: Names) => NodeAt(m, archive) == Some(Blob(data, true))
                    && NodeAt(m, checksum) == Some(Blob(ChecksumText(data), true))
    }

    lemma {:induction false} RecordedIsKept(data: string)
      requires Usable()
      ensures Blind(Recorded(data)) && Admits(Recorded(data), config, Blob(hostDefault, true))
    {
    }

    lemma {:induction false} RecordedIsAccepted(data: string, m: Names)
      requires Usable() && Recorded(data)(m) && accepts(data)
      ensures Accepted(m) && m[archive] == Blob(data, true)
    {
      DigestIsStored(digest(data), suffix);
    }

    lemma {:induction false} StartIsCopying(s: State, data: string)
      ensures Always(s, Copying(Found(s, archive), Found(s, checksum), data))
      ensures NodeAt(s.Now(), checksum) in Found(s, checksum)
    {
      NowIsImage(s);
      forall image | image in s.Images() ensures Copying(Found(s, archive), Found(s, checksum), data)(image) {
        assert NodeAt(image, archive) in Found(s, archive) && NodeAt(image, checksum) in Found(s, checksum);
      }
    }

    function WithArchive(m: Names, data: string): Names {
      m[archive := Blob(data, true)][checksum := Blob(ChecksumText(data), true)]
    }

    function WithConfig(m: Names): Names { if config in m then m else m[config := Blob(hostDefault, true)] }

    /** The copy and the checksum. */
    method Replace(d: Directory, data: string) returns (ok: bool)
      requires Usable()
      modifies d
      ensures Held(old(d.history), d.history,
                   Replacing(Found(old(d.state), archive), Found(old(d.state), checksum), data))
      ensures ok ==> Always(d.state, Recorded(data)) && d.state.Now() == WithArchive(old(d.state).Now(), data)
      ensures d.Reliable() && NoTemporaries(old(d.state).Now()) ==> ok
    {
      ghost var archives, checksums := Found(d.state, archive), Found(d.state, checksum);
      ghost var claim := Replacing(archives, checksums, data);
      ClaimsAreBlind(archives, checksums, data);
      StartIsCopying(d.state, data);
      var renamed;
      ok, renamed := d.AtomicWrite(archive, data, Copying(archives, checksums, data));
      HeldWeaker(old(d.history), d.history, Copying(archives, checksums, data), claim);
      if ok {
        ghost var h := d.history;
        AlwaysNow(d.state, Copying(archives, checksums, data));
        SettledAlways(d.state, Recording(checksums, data));
        ok, renamed :=
          d.AtomicWrite(checksum, digest(d.state.Now()[archive].data) + suffix, Recording(checksums, data));
        HeldWeaker(h, d.history, Recording(checksums, data), claim);
        HeldTwice(old(d.history), h, d.history, claim);
        if ok {
          AlwaysNow(d.state, Recording(checksums, data));
          SettledAlways(d.state, Recorded(data));
        }
      }
    }

    /** bp_rootfs_install of a source archive. At every point a crash leaves whole
        files, and the new checksum only next to the new archive; in the end the new
        archive is accepted, whatever a crash takes. */
    method Install(d: Directory, data: string) returns (ok: bool)
      requires Usable()
      modifies d
      ensures Held(old(d.history), d.history,
                   Replacing(Found(old(d.state), archive), Found(old(d.state), checksum), data))
      ensures ok ==> forall image :: image in d.state.Images() ==> Accepted(image) && image[archive] == Blob(data, true)
      ensures ok ==> d.state.Now() == WithConfig(WithArchive(old(d.state).Now(), data))
      ensures !accepts(data) ==> !ok && d.state == old(d.state)
      ensures d.Reliable() && NoTemporaries(old(d.state).Now()) && accepts(data) ==> ok
    {
      if !accepts(data) {
        return false;
      }
      ghost var archives, checksums := Found(d.state, archive), Found(d.state, checksum);
      ok := Replace(d, data);
      if ok && config !in d.state.Now() {
        ghost var h := d.history;
        RecordedIsKept(data);
        var renamed;
        ok, renamed := d.AtomicWrite(config, hostDefault, Recorded(data));
        HeldWeaker(h, d.history, Recorded(data), Recording(checksums, data));
        HeldWeaker(h, d.history, Recording(checksums, data), Replacing(archives, checksums, data));
        HeldTwice(old(d.history), h, d.history, Replacing(archives, checksums, data));
      }
      if ok {
        forall image | image in d.state.Images() ensures Accepted(image) && image[archive] == Blob(data, true) {
          RecordedIsAccepted(data, image);
        }
      }
    }

    // ----- Acceptance in the middle of a replacement

    /** In a directory that was flushed there is one node a crash can leave. */
    lemma {:induction false} SettledFound(s: State, name: string)
      requires s.pending == []
      ensures Found(s, name) == {NodeAt(s.Now(), name)}
    {
      assert s.Images() == {s.Now()};
    }

    /** A checksum file that holds this digest. */
    predicate Stores(n: Option<Node>, d: string) {
      n.Some? && n.value.Blob? && |n.value.data| <= 1024 && StoredDigest(n.value.data, 64) == Some(d)
    }

    predicate SamePair(a: Names, b: Names) {
      NodeAt(a, archive) == NodeAt(b, archive) && NodeAt(a, checksum) == NodeAt(b, checksum)
    }

    /** What is accepted while the pair in `before` is being replaced: that pair, if
        it was accepted, or the new archive, beside its own checksum, or beside an old
        one that happens to hold its digest. */
    lemma {:induction false} AcceptedDuringReplacement(before: Names, m: Names, data: string)
      requires Usable() && Replacing({NodeAt(before, archive)}, {NodeAt(before, checksum)}, data)(m)
      ensures Accepted(m) <==>
                || (SamePair(before, m) && Accepted(before))
                || (NodeAt(m, archive) == Some(Blob(data, true)) && accepts(data)
                    && (NodeAt(m, checksum) == Some(Blob(ChecksumText(data), true))
                        || Stores(NodeAt(m, checksum), digest(data))))
    {
      DigestIsStored(digest(data), suffix);
      assert Copying({NodeAt(before, archive)}, {NodeAt(before, checksum)}, data)(m)
             || Recording({NodeAt(before, checksum)}, data)(m);
    }

    /** The new archive beside the checksum of an earlier one is refused, unless the
        two have the same digest. */
    lemma {:induction false} HalfReplacedIsRefused(m: Names, earlier: string, data: string)
      requires Usable() && NodeAt(m, archive) == Some(Blob(data, true))
      requires NodeAt(m, checksum) == Some(Blob(ChecksumText(earlier), true))
      ensures Accepted(m) <==> accepts(data) && digest(earlier) == digest(data)
    {
      DigestIsStored(digest(earlier), suffix);
    }
  }
}
