/** NUL-terminated strings inside a character buffer. */
module CStrings {

  /** The C string at `start` is s: its characters, none of them NUL, and then a NUL. */
  ghost predicate Holds(buf: seq<char>, start: nat, s: string) {
    && start + |s| < |buf| && buf[start + |s|] == '\0'
    && (forall k :: 0 <= k < |s| ==> s[k] != '\0')
    && buf[start..start + |s|] == s
  }

  lemma TailHolds(buf: seq<char>, start: nat, s: string, n: nat)
    requires Holds(buf, start, s) && n <= |s|
    ensures Holds(buf, start + n, s[n..])
  {
    assert buf[start + n..start + |s|] == s[n..];
  }

  /** Only the characters of the string and its NUL matter. */
  lemma HoldsIsLocal(buf: seq<char>, buf': seq<char>, start: nat, s: string)
    requires Holds(buf, start, s) && start + |s| < |buf'|
    requires forall k {:trigger buf'[k]} :: start <= k <= start + |s| ==> buf'[k] == buf[k]
    ensures Holds(buf', start, s)
  {
    assert buf'[start..start + |s|] == buf[start..start + |s|];
  }
}
