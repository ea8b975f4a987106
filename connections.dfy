/**
 * The server's table of connected client sockets: a fixed array of MAXUSERS
 * slots of which the first clnt_number are in use. The accept loop admits a
 * socket while there is room; a client thread that ends takes its socket out,
 * closing the gap by shifting the later entries one place to the left.
 */
module Connections {

  /** MAXUSERS. */
  const MAX_USERS := 10

  /** s without its first occurrence of x (s itself when x does not occur). */
  function RemoveFirst(s: seq<int>, x: int): (r: seq<int>)
    ensures x in s ==> |r| == |s| - 1
    ensures x !in s ==> r == s
  {
    if s == [] then []
    else if s[0] == x then s[1..]
    else [s[0]] + RemoveFirst(s[1..], x)
  }

  /** Removing the first occurrence, at index i, closes the gap at i. */
  lemma {:induction false} RemoveFirstAt(s: seq<int>, x: int, i: nat)
    requires i < |s| && s[i] == x && x !in s[..i]
    ensures RemoveFirst(s, x) == s[..i] + s[i + 1..]
  {
    if i > 0 {
      assert s[0] in s[..i];
      assert s[1..][..i - 1] == s[1..i];
      assert s[1..][i - 1] == s[i];
      RemoveFirstAt(s[1..], x, i - 1);
      assert s[..i] == [s[0]] + s[1..i];
      assert s[1..][i..] == s[i + 1..];
    }
  }

  /** Removing a present x takes away exactly one x and nothing else; an absent x leaves s as it was. */
  lemma {:induction false} RemoveFirstCount(s: seq<int>, x: int)
    ensures x in s ==> |RemoveFirst(s, x)| == |s| - 1 && multiset(RemoveFirst(s, x)) == multiset(s) - multiset{x}
    ensures x !in s ==> RemoveFirst(s, x) == s
  {
    if s != [] {
      assert s == [s[0]] + s[1..];
      if s[0] != x {
        RemoveFirstCount(s[1..], x);
        assert x in s <==> x in s[1..];
      }
    }
  }

  /** Entries shifted one place left over index at spell the sequence without its first sock. */
  lemma GapClosed(before: seq<int>, after: seq<int>, n: nat, at: nat, sock: int)
    requires at < n <= |before| == |after|
    requires before[at] == sock && sock !in before[..at]
    requires forall k :: 0 <= k < at ==> after[k] == before[k]
    requires forall k :: at <= k < n - 1 ==> after[k] == before[k + 1]
    ensures after[..n - 1] == RemoveFirst(before[..n], sock)
  {
    assert before[..n][..at] == before[..at];
    RemoveFirstAt(before[..n], sock, at);
    assert after[..n - 1] == before[..at] + before[at + 1..n];
  }

  class ConnectionList {
    /** clnt_socks. */
    var socks: array<int>
    /** clnt_number. */
    var count: int

    ghost predicate Valid()
      reads this
    {
      socks.Length == MAX_USERS && 0 <= count <= MAX_USERS
    }

    /** The sockets in use, in the order they were admitted. */
    function Contents(): seq<int>
      reads this, socks
      requires Valid()
    {
      socks[..count]
    }

    constructor ()
      ensures Valid() && Contents() == [] && fresh(socks)
    {
      socks := new int[MAX_USERS];
      count := 0;
    }

    /**
     * A new connection: refused when MAXUSERS sockets are already in use,
     * otherwise stored in the next free slot.
     */
    method Admit(sock: int) returns (accepted: bool)
      requires Valid()
      modifies this, socks
      ensures Valid() && socks == old(socks)
      ensures accepted <==> old(count) < MAX_USERS
      ensures Contents() == if accepted then old(Contents()) + [sock] else old(Contents())
    {
      if count >= MAX_USERS {
        return false;
      }
      socks[count] := sock;
      count := count + 1;
      accepted := true;
    }

    /**
     * A client thread ending: find its socket, shift the later entries one
     * place left over it, and decrease the count. The count is decreased even
     * when the socket is not found, which drops the last entry.
     */
    method Remove(sock: int)
      requires Valid() && count > 0
      modifies this, socks
      ensures Valid() && socks == old(socks)
      ensures Contents() == if sock in old(Contents()) then RemoveFirst(old(Contents()), sock)
                            else old(Contents())[..old(count) - 1]
    {
      ghost var before := socks[..];
      ghost var at := -1;
      var i := 0;
      while i < count
        invariant 0 <= i <= count
        invariant sock !in socks[..i]
        invariant Valid() && socks == old(socks) && count == old(count)
        invariant socks[..] == before && at == -1
      {
        if sock == socks[i] {
          at := i;
          while i < count - 1
            invariant Valid() && socks == old(socks) && count == old(count) && |before| == socks.Length
            invariant at <= i <= count - 1
            invariant forall k :: 0 <= k < at ==> socks[k] == before[k]
            invariant forall k :: at <= k < i ==> socks[k] == before[k + 1]
            invariant forall k :: i <= k < socks.Length ==> socks[k] == before[k]
          {
            socks[i] := socks[i + 1];
            i := i + 1;
          }
          break;
        }
        i := i + 1;
      }
      if at >= 0 {
        assert before[..at] == socks[..at];
        GapClosed(before, socks[..], count, at, sock);
      } else {
        assert sock !in old(Contents());
      }
      count := count - 1;
    }
  }
}
