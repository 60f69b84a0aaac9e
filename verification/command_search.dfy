/**
 What a search for load commands of one type returns, and why a search step goes right.
 */
module CommandSearch {
  import opened Machine
  import opened Memory
  import opened LoadCommands
  import opened CommandLists

  /** The pointer to the k-th command of a list, NULL past its end. */
  ghost function PointerAt(h: Header, s: seq<nat>, k: nat): Option<u64> {
    if k < |s| then Some(h.PointerTo(s[k])) else None
  }

  /** `*target_address` after `k` commands of a list. */
  ghost function TargetBefore(h: Header, s: seq<nat>, k: nat, prior: u64): u64 {
    if 0 < k <= |s| then h.TargetOf(s[k - 1]) else prior
  }

  /** A search through these commands comes back: it meets a match, or the end instead of a command of size 0. */
  ghost predicate SearchReturns(h: Header, rest: seq<nat>, kind: u32)
  {
    h.Stalls(rest) ==> MatchIndex(h, rest, kind) < |rest|
  }

  /** The first match among these commands. */
  ghost function FirstMatch(h: Header, rest: seq<nat>, kind: u32): Option<u64>
  {
    PointerAt(h, rest, MatchIndex(h, rest, kind))
  }

  /** Where `*target_address` is left: at the match, or else at the last command passed. */
  ghost function LeftAt(h: Header, rest: seq<nat>, kind: u32, prior: u64): u64
  {
    var k := MatchIndex(h, rest, kind);
    TargetBefore(h, rest, if k < |rest| then k + 1 else |rest|, prior)
  }

  /** All commands of one type, in order. */
  function Matches(h: Header, kind: u32): (r: seq<nat>)
    requires h.Valid()
    ensures forall i :: 0 <= i < |r| ==> h.IsKind(r[i], kind)
  {
    OfType(h, h.Commands(), kind)
  }

  // ---------------------------------------------------------------------------
  //  One search
  // ---------------------------------------------------------------------------

  lemma MatchIsLater(h: Header, s: seq<nat>, k: nat, kind: u32)
    requires k < |s| && k <= MatchIndex(h, s, kind) && !h.IsKind(s[k], kind)
    ensures k < MatchIndex(h, s, kind)
  {
  }

  lemma SearchStarts(h: Header, previous: Option<u64>, prior: u64)
    requires h.Valid()
    ensures h.NextCommand(previous) == PointerAt(h, h.Remaining(previous), 0)
    ensures TargetBefore(h, h.Remaining(previous), 0, prior) == prior
  {
    NextIsFirstRemaining(h, previous);
  }

  /** One turn of the search: either the k-th command is the match, or the search moves on to the next. */
  lemma StepPast(h: Header, previous: Option<u64>, k: nat, kind: u32, p: u64, prior: u64)
    requires h.Valid()
    requires SearchReturns(h, h.Remaining(previous), kind) && k <= MatchIndex(h, h.Remaining(previous), kind)
    requires PointerAt(h, h.Remaining(previous), k) == Some(p)
    ensures var rest := h.Remaining(previous);
            && k < |rest| && h.mapping.host <= p && p - h.mapping.host + LC_MIN <= |h.mapping.bytes|
            && (if h.IsKind(p - h.mapping.host, kind)
                then Some(p) == FirstMatch(h, rest, kind)
                     && h.TargetOf(p - h.mapping.host) == LeftAt(h, rest, kind, prior)
                else k < MatchIndex(h, rest, kind)
                     && h.NextCommand(Some(p)) == PointerAt(h, rest, k + 1)
                     && h.TargetOf(p - h.mapping.host) == TargetBefore(h, rest, k + 1, prior))
  {
    hide Read32;
    hide Header.NextCommand, Header.CommandsFrom, Header.Commands;
    var rest := h.Remaining(previous);
    assert h.Accepts(rest[k]);
    if !h.IsKind(rest[k], kind) {
      MatchIsLater(h, rest, k, kind);
      RemainingOf(h, previous, k);
      NextIsFirstRemaining(h, Some(p));
    }
  }

  lemma SearchFailed(h: Header, rest: seq<nat>, k: nat, kind: u32, prior: u64)
    requires k <= MatchIndex(h, rest, kind) && PointerAt(h, rest, k) == None
    ensures FirstMatch(h, rest, kind) == None
    ensures k <= |rest| ==> TargetBefore(h, rest, k, prior) == LeftAt(h, rest, kind, prior)
  {
  }

  /** What remains is a list of commands from some position on. */
  lemma RemainingIsFrom(h: Header, previous: Option<u64>) returns (pos: nat)
    requires h.Valid() && h.Remaining(previous) != []
    ensures h.Remaining(previous) == h.CommandsFrom(pos)
  {
    hide Read32, Header.CommandsFrom;
    match previous
    case None => pos := h.size;
    case Some(p) => pos := p - h.mapping.host + h.CommandSize(p - h.mapping.host);
  }

  /** What remains after the k-th remaining command. */
  lemma RemainingOf(h: Header, previous: Option<u64>, k: nat)
    requires h.Valid() && k < |h.Remaining(previous)|
    ensures var s := h.Remaining(previous);
            k < |s| - 1 || !h.Stalls(s) ==> h.Remaining(Some(h.PointerTo(s[k]))) == s[k + 1..]
  {
    hide *;
    var pos := RemainingIsFrom(h, previous);
    RemainingAfter(h, pos, k);
  }

  // ---------------------------------------------------------------------------
  //  Successive searches
  // ---------------------------------------------------------------------------

  /** The matches from the n-th command on. */
  lemma MatchesFrom(h: Header, s: seq<nat>, kind: u32, n: nat)
    requires n < |s|
    ensures OfType(h, s[n..], kind)
         == (if h.IsKind(s[n], kind) then [s[n]] else []) + OfType(h, s[n + 1..], kind)
  {
    hide Header.IsKind;
    assert s[n..][1..] == s[n + 1..];
  }

  lemma NoMatches(h: Header, s: seq<nat>, kind: u32)
    ensures OfType(h, s[|s|..], kind) == []
  {
  }

  lemma BehindFirst<T>(all: seq<T>, first: seq<T>, rest: seq<T>, i: nat)
    requires all == first + rest && |first| <= i < |all|
    ensures all[i] == rest[i - |first|] && all[i + 1..] == rest[i - |first| + 1..]
  {
  }

  lemma BehindOne<T>(all: seq<T>, first: T, rest: seq<T>)
    requires all == [first] + rest
    ensures all[0] == first && all[1..] == rest
  {
  }

  /** The i-th match from the n-th command on sits somewhere behind it, with the later matches behind that. */
  lemma {:induction false} MatchPositionFrom(h: Header, s: seq<nat>, kind: u32, n: nat, i: nat) returns (k: nat)
    requires n <= |s| && i < |OfType(h, s[n..], kind)|
    ensures k < |s| && s[k] == OfType(h, s[n..], kind)[i]
    ensures OfType(h, s[k + 1..], kind) == OfType(h, s[n..], kind)[i + 1..]
    decreases |s| - n
  {
    hide *;
    if n == |s| {
      NoMatches(h, s, kind);
    } else {
      MatchesFrom(h, s, kind, n);
      var all, rest := OfType(h, s[n..], kind), OfType(h, s[n + 1..], kind);
      if h.IsKind(s[n], kind) {
        BehindOne(all, s[n], rest);
        if i == 0 {
          return n;
        }
        BehindFirst(all, [s[n]], rest, i);
        k := MatchPositionFrom(h, s, kind, n + 1, i - 1);
      } else {
        BehindFirst(all, [], rest, i);
        k := MatchPositionFrom(h, s, kind, n + 1, i);
      }
    }
  }

  /** The i-th match sits somewhere in the list, with the later matches behind it. */
  lemma MatchPosition(h: Header, s: seq<nat>, kind: u32, i: nat) returns (n: nat)
    requires i < |OfType(h, s, kind)|
    ensures n < |s| && s[n] == OfType(h, s, kind)[i]
    ensures OfType(h, s[n + 1..], kind) == OfType(h, s, kind)[i + 1..]
  {
    hide *;
    assert s[0..] == s;
    n := MatchPositionFrom(h, s, kind, 0, i);
  }

  /** After a search has returned a match, the next search returns the next match. */
  lemma NextMatchIs(h: Header, kind: u32, i: nat, prior: u64)
    requires h.Valid() && i < |Matches(h, kind)|
    requires h.Stalls(h.Commands()) ==> i + 1 < |Matches(h, kind)|
    ensures var p := h.PointerTo(Matches(h, kind)[i]);
            && SearchReturns(h, h.Remaining(Some(p)), kind)
            && FirstMatch(h, h.Remaining(Some(p)), kind) == PointerAt(h, Matches(h, kind), i + 1)
            && LeftAt(h, h.Remaining(Some(p)), kind, h.TargetOf(Matches(h, kind)[i]))
              == LeftAfter(h, kind, i + 1, prior)
  {
    hide Read32;
    hide Header.Accepts, Header.Commands, MatchIndex, OfType, Header.IsKind;
    var s := h.Commands();
    var n := MatchPosition(h, s, kind, i);
    var t := s[n + 1..];
    OfTypeSplitsAtMatch(h, t, kind);
    RemainingOf(h, None, n);
    assert t != [] ==> t[|t| - 1] == s[|s| - 1];
  }

  /** Searching from the start returns the first match. */
  lemma FirstMatchIs(h: Header, kind: u32, prior: u64)
    requires h.Valid() && (h.Stalls(h.Commands()) ==> Matches(h, kind) != [])
    ensures SearchReturns(h, h.Remaining(None), kind)
    ensures FirstMatch(h, h.Remaining(None), kind) == PointerAt(h, Matches(h, kind), 0)
    ensures LeftAt(h, h.Remaining(None), kind, prior) == LeftAfter(h, kind, 0, prior)
  {
    hide Read32;
    hide Header.Accepts, Header.Commands, MatchIndex, OfType, Header.IsKind;
    OfTypeSplitsAtMatch(h, h.Commands(), kind);
  }

  /**
   `*target_address` after the search for the i-th match: at it, or at the image's last command if there
   is none.
   */
  ghost function LeftAfter(h: Header, kind: u32, i: nat, prior: u64): u64
    requires h.Valid()
  {
    if i < |Matches(h, kind)| then h.TargetOf(Matches(h, kind)[i])
    else TargetBefore(h, h.Commands(), |h.Commands()|, prior)
  }

  lemma PointerIsMatch(h: Header, s: seq<nat>, k: nat)
    ensures PointerAt(h, s, k).Some? <==> k < |s|
    ensures k < |s| ==> PointerAt(h, s, k) == Some(h.PointerTo(s[k]))
  {
  }
}
