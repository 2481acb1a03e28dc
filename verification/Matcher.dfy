/** Searching a stream for several strings at once, without a precomputed table. */
module Matcher {
  import opened Records

  /** `text` ends with the first `n` characters of `p`. */
  ghost predicate Ends(text: string, p: string, n: nat)
    requires n <= |p|
  {
    n <= |text| && text[|text| - n..] == p[..n]
  }

  ghost predicate EndsWith(text: string, p: string) {
    Ends(text, p, |p|)
  }

  /** `p` does not occur in `text`. */
  ghost predicate Absent(text: string, p: string) {
    forall n :: 0 <= n <= |text| ==> !EndsWith(text[..n], p)
  }

  /** `n` is the length of the longest proper prefix of `p` that `text` ends with. */
  ghost predicate Longest(text: string, p: string, n: nat) {
    && n < |p| && Ends(text, p, n)
    && forall m :: n < m < |p| ==> !Ends(text, p, m)
  }

  lemma EndsNext(text: string, c: char, p: string, n: nat)
    requires 0 < n <= |p|
    ensures Ends(text + [c], p, n) <==> p[n - 1] == c && Ends(text, p, n - 1)
  {
    var next := text + [c];
    assert p[..n] == p[..n - 1] + [p[n - 1]];
    if n <= |next| {
      assert next[|next| - n..] == text[|text| - (n - 1)..] + [c];
    }
  }

  /** Within a matched prefix, a shorter match is a border of the prefix. */
  lemma Border(text: string, p: string, n: nat, m: nat)
    requires m <= n <= |p| && Ends(text, p, n)
    ensures Ends(text, p, m) <==> forall j :: 0 <= j < m ==> p[j] == p[j + (n - m)]
  {
  }

  lemma EndsZero(text: string, p: string)
    ensures Ends(text, p, 0)
  {
  }

  lemma NothingRead(p: string)
    requires p != ""
    ensures Longest("", p, 0) && Absent("", p)
  {
  }

  lemma AbsentEnds(text: string, p: string)
    ensures Absent(text, p) ==> !EndsWith(text, p)
  {
    assert text[..|text|] == text;
  }

  lemma AbsentNext(text: string, c: char, p: string)
    requires Absent(text, p) && !EndsWith(text + [c], p)
    ensures Absent(text + [c], p)
  {
    var next := text + [c];
    forall n | 0 <= n <= |next|
      ensures !EndsWith(next[..n], p)
    {
      if n <= |text| {
        assert next[..n] == text[..n];
      } else {
        assert next[..n] == next;
      }
    }
  }

  /** A string to look for, and how much of it the input read so far ends with. */
  datatype MultiTarget = MultiTarget(str: string, index: nat)

  class Stream {
    const input: string
    var pos: nat

    ghost predicate Valid()
      reads this
    {
      pos <= |input|
    }

    constructor (input: string)
      ensures Valid() && this.input == input && pos == 0
    {
      this.input := input;
      pos := 0;
    }

    /** The next character, or nothing at the end of the input. */
    method Read() returns (c: int)
      requires Valid()
      modifies this
      ensures Valid()
      ensures old(pos) == |input| ==> c == -1 && pos == old(pos)
      ensures old(pos) < |input| ==> c == input[old(pos)] as int && pos == old(pos) + 1
    {
      if pos == |input| {
        return -1;
      }
      c := input[pos] as int;
      pos := pos + 1;
    }

    /** After a mismatch, the longest border of the matched prefix that the character extends. */
    static method WalkBack(p: string, orig: nat, c: char, ghost text: string) returns (idx: nat)
      requires Longest(text, p, orig) && c != p[orig]
      ensures Longest(text + [c], p, idx)
    {
      hide Ends;
      ghost var next := text + [c];
      forall m | 0 < m <= |p|
        ensures Ends(next, p, m) <==> p[m - 1] == c && Ends(text, p, m - 1)
      {
        EndsNext(text, c, p, m);
      }
      EndsZero(next, p);
      idx := orig;
      while idx > 0
        invariant 0 <= idx <= orig
        invariant forall m :: idx < m < |p| ==> !Ends(next, p, m)
      {
        idx := idx - 1;
        if c != p[idx] {
          continue;
        }
        Border(text, p, orig, idx);
        if idx == 0 {
          idx := 1;
          break;
        }
        var diff := orig - idx;
        var i := 0;
        while i < idx && p[i] == p[i + diff]
          invariant 0 <= i <= idx && forall j :: 0 <= j < i ==> p[j] == p[j + diff]
        {
          i := i + 1;
        }
        if i == idx {
          idx := idx + 1;
          break;
        }
      }
    }

    /** Feeds one character to one target: it is found, or its index stays exact. */
    static method Feed(targets: array<MultiTarget>, k: nat, c: char, ghost text: string) returns (matched: bool)
      requires k < targets.Length && Longest(text, targets[k].str, targets[k].index)
      modifies targets
      ensures forall i :: 0 <= i < targets.Length && i != k ==> targets[i] == old(targets[i])
      ensures targets[k].str == old(targets[k].str)
      ensures matched <==> EndsWith(text + [c], targets[k].str)
      ensures !matched ==> Longest(text + [c], targets[k].str, targets[k].index)
    {
      hide Ends;
      var p, idx := targets[k].str, targets[k].index;
      ghost var next := text + [c];
      forall m | 0 < m <= |p|
        ensures Ends(next, p, m) <==> p[m - 1] == c && Ends(text, p, m - 1)
      {
        EndsNext(text, c, p, m);
      }
      EndsZero(next, p);
      if c == p[idx] {
        targets[k] := MultiTarget(p, idx + 1);
        return idx + 1 == |p|;
      }
      if idx == 0 {
        return false;
      }
      idx := WalkBack(p, idx, c, text);
      targets[k] := MultiTarget(p, idx);
      return false;
    }

    /** Reads up to the end of the first occurrence of any target, and says which: the lowest of those that end there.
        Without an occurrence the whole input is read. */
    method FindMulti(targets: array<MultiTarget>) returns (found: int)
      requires Valid() && forall i :: 0 <= i < targets.Length ==> targets[i].index == 0
      modifies this, targets
      ensures Valid() && old(pos) <= pos && -1 <= found < targets.Length
      ensures forall i :: 0 <= i < targets.Length ==> targets[i].str == old(targets[i].str)
      ensures (exists i :: 0 <= i < targets.Length && targets[i].str == "") ==>
                && 0 <= found && targets[found].str == "" && (forall i :: 0 <= i < found ==> targets[i].str != "")
                && pos == old(pos)
      ensures (forall i :: 0 <= i < targets.Length ==> targets[i].str != "") ==>
                if found < 0 then
                  pos == |input| && forall i :: 0 <= i < targets.Length ==>
                    Absent(input[old(pos)..], targets[i].str)
                      && Longest(input[old(pos)..], targets[i].str, targets[i].index)
                else
                  && EndsWith(input[old(pos)..pos], targets[found].str)
                  && (forall i :: 0 <= i < found ==> Absent(input[old(pos)..pos], targets[i].str))
                  && old(pos) < pos
                  && (forall i :: 0 <= i < targets.Length ==> Absent(input[old(pos)..pos - 1], targets[i].str))
    {
      hide EndsWith, Ends;
      for k := 0 to targets.Length
        invariant targets[..] == old(targets[..]) && pos == old(pos)
        invariant forall i :: 0 <= i < k ==> targets[i].str != ""
      {
        if |targets[k].str| == 0 {
          return k;
        }
      }
      ghost var text := "";
      forall i | 0 <= i < targets.Length
        ensures Longest("", targets[i].str, 0) && Absent("", targets[i].str)
      {
        NothingRead(targets[i].str);
      }
      assert input[old(pos)..pos] == text;
      while true
        invariant Valid() && old(pos) <= pos && text == input[old(pos)..pos]
        invariant forall i :: 0 <= i < targets.Length ==> targets[i].str == old(targets[i].str)
        invariant forall i :: 0 <= i < targets.Length ==>
                    Longest(text, targets[i].str, targets[i].index) && Absent(text, targets[i].str)
        decreases |input| - pos
      {
        var c := Read();
        if c < 0 {
          assert input[old(pos)..] == text;
          return -1;
        }
        ghost var next := text + [c as char];
        assert input[old(pos)..pos] == next && input[old(pos)..pos - 1] == text;
        var matched := FeedAll(targets, c as char, text);
        if matched >= 0 {
          return matched;
        }
        text := next;
      }
    }

    /** Feeds one character to the targets in turn, up to the first it completes. */
    static method FeedAll(targets: array<MultiTarget>, c: char, ghost text: string) returns (matched: int)
      requires forall i :: 0 <= i < targets.Length ==>
                 Longest(text, targets[i].str, targets[i].index) && Absent(text, targets[i].str)
      modifies targets
      ensures -1 <= matched < targets.Length
      ensures forall i :: 0 <= i < targets.Length ==> targets[i].str == old(targets[i].str)
      ensures forall i :: 0 <= i < targets.Length && (0 <= matched ==> i < matched) ==>
                Longest(text + [c], targets[i].str, targets[i].index) && Absent(text + [c], targets[i].str)
      ensures matched >= 0 ==> EndsWith(text + [c], targets[matched].str)
    {
      hide Longest, Absent, EndsWith;
      for k := 0 to targets.Length
        invariant forall i :: k <= i < targets.Length ==> targets[i] == old(targets[i])
        invariant forall i :: 0 <= i < k ==> targets[i].str == old(targets[i].str)
        invariant forall i :: 0 <= i < k ==>
                    Longest(text + [c], targets[i].str, targets[i].index) && Absent(text + [c], targets[i].str)
      {
        var found := Feed(targets, k, c, text);
        if found {
          return k;
        }
        AbsentNext(text, c, targets[k].str);
      }
      return -1;
    }

    /** Whether the target comes up before the terminator, if there is one. */
    method FindUntil(target: string, terminator: Option<string>) returns (ok: bool)
      requires Valid()
      modifies this
      ensures Valid() && old(pos) <= pos
      ensures target == "" ==> ok && pos == old(pos)
      ensures target != "" && terminator == Some("") ==> !ok && pos == old(pos)
      ensures target != "" && terminator != Some("") ==>
                && (ok <==> EndsWith(input[old(pos)..pos], target))
                && (!ok ==> Absent(input[old(pos)..pos], target))
                && (!ok && pos < |input| ==> terminator.Some? && EndsWith(input[old(pos)..pos], terminator.value))
                && (ok ==> old(pos) < pos && Absent(input[old(pos)..pos - 1], target)
                           && (terminator.Some? ==> Absent(input[old(pos)..pos - 1], terminator.value)))
    {
      hide Ends, EndsWith, Absent, Longest;
      var targets;
      if terminator.None? {
        targets := new MultiTarget[1](_ => MultiTarget(target, 0));
      } else {
        targets := new MultiTarget[2](i => MultiTarget(if i == 0 then target else terminator.value, 0));
      }
      assert targets[0].str == target && (terminator.Some? ==> targets[1].str == terminator.value);
      var found := FindMulti(targets);
      assert targets[0].str == target && (terminator.Some? ==> targets[1].str == terminator.value);
      assert found < 0 ==> input[old(pos)..] == input[old(pos)..pos];
      AbsentEnds(input[old(pos)..pos], target);
      return found == 0;
    }
  }
}
