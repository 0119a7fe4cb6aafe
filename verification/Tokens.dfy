/** Splitting a path at its slashes in place (kernel/util/tok.c:16-56). */
module Tokens {
  import opened Basics

  const NUL: char := '\0'
  const SLASH: char := '/'

  ghost predicate Plain(s: string) {
    forall i :: 0 <= i < |s| ==> s[i] != NUL
  }

  /** The characters before the first slash. */
  function FirstPart(s: string): (n: nat)
    ensures n <= |s| && (n < |s| ==> s[n] == SLASH)
    ensures forall i :: 0 <= i < n ==> s[i] != SLASH
  {
    if s == "" || s[0] == SLASH then 0 else
      var n := FirstPart(s[1..]);
      assert forall i :: 1 <= i < n + 1 ==> s[i] == s[1..][i - 1];
      n + 1
  }

  /** The non-empty parts between slashes. */
  function Split(s: string): seq<string>
    decreases |s|
  {
    if s == "" then []
    else if s[0] == SLASH then Split(s[1..])
    else [s[..FirstPart(s)]] + Split(s[FirstPart(s)..])
  }

  lemma {:induction false} SplitParts(s: string)
    ensures forall t :: t in Split(s) ==> t != "" && SLASH !in t
    decreases |s|
  {
    if s == "" {
    } else if s[0] == SLASH {
      SplitParts(s[1..]);
    } else {
      SplitParts(s[FirstPart(s)..]);
    }
  }

  /** A name without a slash is its own and only part. With SplitJoined this determines Split. */
  lemma SplitName(s: string)
    requires SLASH !in s
    ensures Split(s) == if s == "" then [] else [s]
  {
    if s != "" && FirstPart(s) == |s| {
      assert s[..|s|] == s && s[|s|..] == "";
    }
  }

  /** Joining two paths with a slash joins their parts. */
  lemma {:induction false} SplitJoined(a: string, b: string)
    ensures Split(a + [SLASH] + b) == Split(a) + Split(b)
    decreases |a|
  {
    var s := a + [SLASH] + b;
    if a == "" {
      assert s[1..] == b;
    } else if a[0] == SLASH {
      assert s[1..] == a[1..] + [SLASH] + b;
      SplitJoined(a[1..], b);
    } else {
      FirstPartIs(s, a, b);
      var n := FirstPart(a);
      assert s[..n] == a[..n];
      assert s[n..] == a[n..] + [SLASH] + b;
      SplitJoined(a[n..], b);
    }
  }

  lemma {:induction false} FirstPartIs(s: string, a: string, b: string)
    requires s == a + [SLASH] + b
    ensures FirstPart(s) == FirstPart(a)
  {
    if a != "" && a[0] != SLASH {
      assert s[1..] == a[1..] + [SLASH] + b;
      FirstPartIs(s[1..], a[1..], b);
    }
  }

  /** The state of a tokenizer over a zero-terminated buffer. */
  class Tokenizer {
    const buffer: array<char>
    const length: nat           // where the buffer's own terminator stands
    var next: nat               // where the rest begins
    var done: bool              // next_token is NULL

    /** What is left has no terminator inside it. */
    ghost predicate Valid()
      reads this, buffer
    {
      && length < buffer.Length && next <= length && buffer[length] == NUL
      && Plain(buffer[next..length])
    }

    /** The tokens still to come. */
    ghost function Pending(): seq<string>
      requires Valid()
      reads this, buffer
    {
      if done then [] else Split(buffer[next..length])
    }

    constructor (text: string)
      requires Plain(text)
      ensures Valid() && Pending() == Split(text) && fresh(buffer)
    {
      var b := new char[|text| + 1];
      buffer, length, next, done := b, |text|, 0, false;
      new;
      forall i | 0 <= i < |text| { b[i] := text[i]; }
      b[|text|] := NUL;
      assert b[0..|text|] == text;
    }

    /** Past the slashes at from. */
    method SkipSlashes(from: nat) returns (at: nat)
      requires length < buffer.Length && from <= length && buffer[length] == NUL && Plain(buffer[from..length])
      ensures from <= at <= length && (buffer[at] == NUL <==> at == length) && buffer[at] != SLASH
      ensures Split(buffer[from..length]) == Split(buffer[at..length]) && Plain(buffer[at..length])
    {
      ghost var part := buffer[from..length];
      assert forall k :: 0 <= k < |part| ==> part[k] == buffer[from + k];
      at := from;
      while buffer[at] != NUL && buffer[at] == SLASH
        invariant from <= at <= length && Split(buffer[at..length]) == Split(part)
        decreases length - at
      {
        assert buffer[at..length][1..] == buffer[at + 1..length];
        at := at + 1;
      }
      if at < length { assert part[at - from] == buffer[at]; }
    }

    /** The end of the token at start. */
    method TokenEnd(start: nat) returns (at: nat)
      requires length < buffer.Length && start <= length && buffer[length] == NUL && Plain(buffer[start..length])
      ensures start <= at <= length && at - start == FirstPart(buffer[start..length])
      ensures buffer[at] == NUL <==> at == length
    {
      ghost var part := buffer[start..length];
      assert forall k :: 0 <= k < |part| ==> part[k] == buffer[start + k];
      at := start;
      while buffer[at] != NUL && buffer[at] != SLASH
        invariant start <= at <= length && at - start <= FirstPart(part)
        decreases length - at
      {
        assert part[at - start] == buffer[at];
        at := at + 1;
      }
      if at < length { assert part[at - start] == buffer[at]; }
    }

    /** The next token, cut out of the buffer by a terminator. */
    method Next() returns (token: Option<string>)
      requires Valid()
      modifies this, buffer
      ensures Valid()
      ensures if old(Pending()) == [] then token == None && Pending() == []
              else token == Some(old(Pending())[0]) && Pending() == old(Pending())[1..]
    {
      if done { return None; }
      hide Split, FirstPart, Plain;
      var start := SkipSlashes(next);
      ghost var part := buffer[start..length];
      SplitHead(part);
      if buffer[start] == NUL {
        assert part == "";
        done := true;
        return None;
      }
      assert part[0] == buffer[start];
      token := Cut(start);
    }

    /** The token that starts here; what follows it is still to come. */
    method Cut(start: nat) returns (token: Option<string>)
      requires Valid() && !done && start < length && Plain(buffer[start..length]) && buffer[start] != SLASH
      modifies this, buffer
      ensures Valid()
      ensures var part := old(buffer[start..length]); var n := FirstPart(part);
              token == Some(part[..n]) && Pending() == if n == |part| then [] else Split(part[n..][1..])
    {
      ghost var part := buffer[start..length];
      hide Split, FirstPart, Plain;
      var at := TokenEnd(start);
      var word := buffer[start..at];
      assert word == part[..at - start];
      PlainRest(part, at - start);
      if buffer[at] != NUL {
        SliceRest(start, at);
        CutHere(at);
      } else {
        done := true;
      }
      return Some(word);
    }

    lemma SliceRest(start: nat, at: nat)
      requires start <= at < length < buffer.Length
      ensures buffer[at + 1..length] == buffer[start..length][at - start..][1..]
    {
    }

    /** Ends the token at at and moves on behind it. */
    method CutHere(at: nat)
      requires at < length < buffer.Length && buffer[length] == NUL
      modifies `next, buffer
      ensures next == at + 1 && buffer[length] == NUL && buffer[next..length] == old(buffer[at + 1..length])
    {
      buffer[at] := NUL;
      next := at + 1;
    }
  }

  lemma PlainRest(s: string, n: nat)
    requires Plain(s) && n <= |s|
    ensures n < |s| ==> Plain(s[n..][1..])
  {
  }

  /** The first token of a text and what is left after the slash behind it. */
  lemma SplitHead(s: string)
    ensures s == "" ==> Split(s) == []
    ensures s != "" && s[0] != SLASH ==>
      var n := FirstPart(s);
      Split(s) == [s[..n]] + (if n == |s| then [] else Split(s[n..][1..])) && n > 0
  {
    if s != "" && s[0] != SLASH {
      var n := FirstPart(s);
      if n < |s| { assert s[n..][0] == SLASH; } else { assert s[n..] == ""; }
    }
  }
}
