/**
 * Fenced code blocks. Two regular expressions of the source are modelled here as
 * left-to-right scans: `/```[\s\S]*?```/g` (a block: an opening fence, then the
 * SHORTEST run of anything up to the next fence), used both to keep code out of
 * speech (App.tsx) and to cut a reply into display parts (ChatInterface.tsx), and
 * the unanchored `/```(\w*)\n([\s\S]*?)```/` that reads a part's language and body.
 */
module Fences {
  import opened Wrappers
  import opened Text

  const Fence: string := "```"

  /** What speech says in place of each fenced block. */
  const CodePlaceholder: string := "Code block displayed."

  /** Three backticks start at `j`. */
  predicate FenceAt(s: string, j: int) {
    0 <= j && j + 3 <= |s| && s[j] == '`' && s[j + 1] == '`' && s[j + 2] == '`'
  }

  predicate NoFence(s: string) {
    forall j :: 0 <= j < |s| ==> !FenceAt(s, j)
  }

  /** The lazy `[\s\S]*?```` step: the first fence starting at `k` or later. */
  function FindFence(s: string, k: nat): (r: Option<nat>)
    decreases |s| - k
    ensures r.Some? ==> k <= r.value && FenceAt(s, r.value)
    ensures r.Some? ==> forall j :: k <= j < r.value ==> !FenceAt(s, j)
    ensures r.None? ==> forall j :: k <= j ==> !FenceAt(s, j)
  {
    if k + 3 > |s| then None
    else if FenceAt(s, k) then Some(k)
    else FindFence(s, k + 1)
  }

  /** `/```[\s\S]*?```/` matches at position `i`. */
  predicate BlockAt(s: string, i: int) {
    0 <= i && FenceAt(s, i) && FindFence(s, i + 3).Some?
  }

  predicate NoBlock(s: string) {
    forall i :: 0 <= i < |s| ==> !BlockAt(s, i)
  }

  /** The leftmost block at `k` or later, as its start and its end (one past the closing fence). */
  function FirstBlock(s: string, k: nat): (r: Option<(nat, nat)>)
    decreases |s| - k
    ensures r.Some? ==> k <= r.value.0 && BlockAt(s, r.value.0)
    ensures r.Some? ==> r.value.1 == FindFence(s, r.value.0 + 3).value + 3
    ensures r.Some? ==> r.value.0 + 6 <= r.value.1 <= |s|
    ensures r.Some? ==> forall j :: k <= j < r.value.0 ==> !BlockAt(s, j)
    ensures r.None? ==> forall j :: k <= j ==> !BlockAt(s, j)
  {
    if k + 3 > |s| then None
    else if BlockAt(s, k) then Some((k, FindFence(s, k + 3).value + 3))
    else FirstBlock(s, k + 1)
  }

  /** `text.replace(/```[\s\S]*?```/g, 'Code block displayed.')`. */
  function ScrubCode(s: string): (r: string)
    decreases |s|
    ensures NoBlock(r)
    ensures NoBlock(s) ==> r == s
  {
    match FirstBlock(s, 0)
    case None => s
    case Some((i, e)) =>
      BeforeFirstBlockNoFence(s, i, e);
      PrefixPlaceholderKeepsNoBlock(s[..i], ScrubCode(s[e..]));
      s[..i] + CodePlaceholder + ScrubCode(s[e..])
  }

  /**
   * `content.split(/(```[\s\S]*?```)/g)`: the text before the first block, the block
   * itself (the capture group keeps it), and so on; always an odd number of parts.
   */
  function SplitBlocks(s: string): (parts: seq<string>)
    decreases |s|
    ensures |parts| % 2 == 1
    ensures forall k :: 0 <= k < |parts| && k % 2 == 0 ==> NoBlock(parts[k])
    ensures forall k :: 0 <= k < |parts| && k % 2 == 1 ==> IsBlock(parts[k])
    ensures forall k :: 0 <= k < |parts| - 1 && k % 2 == 0 ==> NoFence(parts[k] + "``")
    ensures Join(parts) == s
  {
    match FirstBlock(s, 0)
    case None =>
      assert [s][1..] == [];
      [s]
    case Some((i, e)) =>
      var rest := SplitBlocks(s[e..]);
      BeforeFirstBlockNoFence(s, i, e);
      FirstBlockIsBlock(s, i, e);
      SplitStep(s, i, e, rest);
      FirstBlockLeftmost(s, i, e);
      LeftmostStep(s, i, e, rest);
      var parts := [s[..i], s[i..e]] + rest;
      parts
  }

  /** A whole part that the split cut out as a block: a fence, then nothing but the first closing fence at its end. */
  predicate IsBlock(b: string) {
    FenceAt(b, 0) && FindFence(b, 3) == Some(|b| - 3)
  }

  /** The parts joined back, with each block part spoken as the placeholder. */
  function JoinSpoken(parts: seq<string>): string
    decreases |parts|
  {
    if |parts| <= 1 then Join(parts)
    else parts[0] + CodePlaceholder + JoinSpoken(parts[2..])
  }

  lemma FenceInSlice(s: string, a: nat, b: nat, j: int)
    requires a <= b <= |s|
    ensures FenceAt(s[a..b], j) <==> (0 <= j && j + 3 <= b - a && FenceAt(s, a + j))
  {
  }

  lemma FindFenceUnique(s: string, k: nat, j: nat)
    requires k <= j && FenceAt(s, j)
    requires forall i :: k <= i < j ==> !FenceAt(s, i)
    ensures FindFence(s, k) == Some(j)
  {
  }

  /** The text before the leftmost block holds no fence at all (a fence there would open an earlier block). */
  lemma BeforeFirstBlockNoFence(s: string, i: nat, e: nat)
    requires FirstBlock(s, 0) == Some((i, e))
    ensures NoFence(s[..i])
  {
    forall p | FenceAt(s[..i], p) ensures false {
      FenceInSlice(s, 0, i, p);
      assert FenceAt(s, i);
      assert FindFence(s, p + 3).Some?;
      assert BlockAt(s, p);
    }
  }

  /**
   * No fence starts before the leftmost block, not even one running into its
   * opening fence: such a fence would open an earlier block, closed by the same
   * closing fence.
   */
  lemma FirstBlockLeftmost(s: string, i: nat, e: nat)
    requires FirstBlock(s, 0) == Some((i, e))
    ensures NoFence(s[..i] + "``")
  {
    var u := s[..i] + "``";
    assert u == s[..i + 2];
    forall p | FenceAt(u, p) ensures false {
      FenceInSlice(s, 0, i + 2, p);
      assert FenceAt(s, e - 3);
      assert FindFence(s, p + 3).Some?;
      assert BlockAt(s, p);
    }
  }

  /** The block part cut out of `s` is exactly one fenced block. */
  lemma FirstBlockIsBlock(s: string, i: nat, e: nat)
    requires FirstBlock(s, 0) == Some((i, e))
    ensures IsBlock(s[i..e])
  {
    var b := s[i..e];
    FenceInSlice(s, i, e, 0);
    var c := e - 3;
    FenceInSlice(s, i, e, c - i);
    forall j | 3 <= j < c - i ensures !FenceAt(b, j) {
      FenceInSlice(s, i, e, j);
    }
    FindFenceUnique(b, 3, c - i);
  }

  /** One step of the split: fence-free text, a block, then the split of the rest keep the split's shape. */
  lemma SplitStep(s: string, i: nat, e: nat, rest: seq<string>)
    requires i <= e <= |s| && NoFence(s[..i]) && IsBlock(s[i..e])
    requires |rest| % 2 == 1 && Join(rest) == s[e..]
    requires forall k :: 0 <= k < |rest| && k % 2 == 0 ==> NoBlock(rest[k])
    requires forall k :: 0 <= k < |rest| && k % 2 == 1 ==> IsBlock(rest[k])
    ensures var parts := [s[..i], s[i..e]] + rest;
      |parts| % 2 == 1 &&
      (forall k :: 0 <= k < |parts| && k % 2 == 0 ==> NoBlock(parts[k])) &&
      (forall k :: 0 <= k < |parts| && k % 2 == 1 ==> IsBlock(parts[k])) &&
      Join(parts) == s
  {
    var parts := [s[..i], s[i..e]] + rest;
    forall k | 0 <= k < |parts|
      ensures (k % 2 == 0 ==> NoBlock(parts[k])) && (k % 2 == 1 ==> IsBlock(parts[k]))
    {
      if k >= 2 {
        assert parts[k] == rest[k - 2] && (k - 2) % 2 == k % 2;
      }
    }
    JoinStep(s, i, e, rest);
  }

  /** One step of the split keeps every text part, with the two backticks after it, free of fences. */
  lemma LeftmostStep(s: string, i: nat, e: nat, rest: seq<string>)
    requires i <= e <= |s| && NoFence(s[..i] + "``")
    requires forall k :: 0 <= k < |rest| - 1 && k % 2 == 0 ==> NoFence(rest[k] + "``")
    ensures var parts := [s[..i], s[i..e]] + rest;
      forall k :: 0 <= k < |parts| - 1 && k % 2 == 0 ==> NoFence(parts[k] + "``")
  {
    var parts := [s[..i], s[i..e]] + rest;
    forall k | 0 <= k < |parts| - 1 && k % 2 == 0 ensures NoFence(parts[k] + "``") {
      if k >= 2 {
        assert parts[k] == rest[k - 2] && (k - 2) % 2 == 0;
      }
    }
  }

  lemma JoinStep(s: string, i: nat, e: nat, rest: seq<string>)
    requires i <= e <= |s| && Join(rest) == s[e..]
    ensures Join([s[..i], s[i..e]] + rest) == s
  {
    var parts := [s[..i], s[i..e]] + rest;
    assert parts[1..][1..] == rest;
    assert s[..i] + (s[i..e] + s[e..]) == s;
  }

  /** A block at `i` with none from `k` up to it is the leftmost block from `k`. */
  lemma FirstBlockUnique(s: string, k: nat, i: nat)
    requires k <= i && BlockAt(s, i)
    requires forall j :: k <= j < i ==> !BlockAt(s, j)
    ensures FirstBlock(s, k).Some? && FirstBlock(s, k).value.0 == i
  {
  }

  /** Fence-free text (with the two backticks after it), then a block: that block is the leftmost one of the whole text. */
  lemma LocateFirstBlock(a: string, b: string, t: string)
    requires NoFence(a + "``") && IsBlock(b)
    ensures FirstBlock(a + b + t, 0) == Some((|a|, |a| + |b|))
  {
    var s := a + b + t;
    var i := |a|;
    var e := |a| + |b|;
    ConcatSlices(a, b, t);
    assert FenceAt(b, |b| - 3);
    FenceInSlice(s, i, e, 0);
    FenceInSlice(s, i, e, |b| - 3);
    forall j | i + 3 <= j < e - 3 ensures !FenceAt(s, j) {
      FenceInSlice(s, i, e, j - i);
    }
    FindFenceUnique(s, i + 3, e - 3);
    assert s[..i + 2] == a + "``" by {
      assert s[i] == b[0] && s[i + 1] == b[1];
    }
    forall j | 0 <= j < i ensures !BlockAt(s, j) {
      FenceInSlice(s, 0, i + 2, j);
    }
    FirstBlockUnique(s, 0, i);
  }

  lemma ConcatSlices(a: string, b: string, t: string)
    ensures (a + b + t)[..|a|] == a && (a + b + t)[|a|..|a| + |b|] == b && (a + b + t)[|a| + |b|..] == t
  {
  }

  /** The split of a text whose leftmost block is known. */
  lemma SplitAtFirst(s: string, i: nat, e: nat)
    requires FirstBlock(s, 0) == Some((i, e))
    ensures SplitBlocks(s) == [s[..i], s[i..e]] + SplitBlocks(s[e..])
  {
  }

  /** Joining parts is joining the first two, then the rest. */
  lemma JoinFront(parts: seq<string>)
    requires |parts| >= 2
    ensures Join(parts) == parts[0] + parts[1] + Join(parts[2..])
  {
    assert parts[1..][1..] == parts[2..];
  }

  /**
   * The split is the only sequence of parts with its shape: text parts holding no
   * block, block parts, every text part before a block free of any fence that
   * would start earlier, joining back to the text. So its contract fixes the
   * parts the regular-expression split returns.
   */
  lemma {:induction false} SplitUnique(s: string, parts: seq<string>)
    requires |parts| % 2 == 1
    requires forall k :: 0 <= k < |parts| && k % 2 == 0 ==> NoBlock(parts[k])
    requires forall k :: 0 <= k < |parts| && k % 2 == 1 ==> IsBlock(parts[k])
    requires forall k :: 0 <= k < |parts| - 1 && k % 2 == 0 ==> NoFence(parts[k] + "``")
    requires Join(parts) == s
    decreases |s|
    ensures parts == SplitBlocks(s)
  {
    if |parts| == 1 {
      assert parts[1..] == [];
      assert Join(parts) == parts[0] + "";
      assert s == parts[0] && NoBlock(parts[0]);
      NoBlockSplit(s);
    } else {
      var rest := parts[2..];
      JoinFront(parts);
      TailShape(parts);
      SplitUnique(Join(rest), rest);
      SplitFront(parts[0], parts[1], Join(rest));
      assert parts == [parts[0], parts[1]] + rest;
    }
  }

  /** Fence-free text, a block and any rest: the split is the text, the block, then the split of the rest. */
  lemma SplitFront(a: string, b: string, t: string)
    requires NoFence(a + "``") && IsBlock(b)
    ensures SplitBlocks(a + b + t) == [a, b] + SplitBlocks(t)
  {
    LocateFirstBlock(a, b, t);
    ConcatSlices(a, b, t);
    SplitAtFirst(a + b + t, |a|, |a| + |b|);
  }

  /** A text with no block is split into itself alone. */
  lemma NoBlockSplit(s: string)
    requires NoBlock(s)
    ensures SplitBlocks(s) == [s]
  {
  }

  /** Dropping the first text part and block keeps the split's shape. */
  lemma TailShape(parts: seq<string>)
    requires |parts| >= 2 && |parts| % 2 == 1
    requires forall k :: 0 <= k < |parts| && k % 2 == 0 ==> NoBlock(parts[k])
    requires forall k :: 0 <= k < |parts| && k % 2 == 1 ==> IsBlock(parts[k])
    requires forall k :: 0 <= k < |parts| - 1 && k % 2 == 0 ==> NoFence(parts[k] + "``")
    ensures var rest := parts[2..];
      |rest| % 2 == 1 &&
      (forall k :: 0 <= k < |rest| && k % 2 == 0 ==> NoBlock(rest[k])) &&
      (forall k :: 0 <= k < |rest| && k % 2 == 1 ==> IsBlock(rest[k])) &&
      (forall k :: 0 <= k < |rest| - 1 && k % 2 == 0 ==> NoFence(rest[k] + "``"))
  {
    var rest := parts[2..];
    forall k | 0 <= k < |rest| ensures rest[k] == parts[k + 2] && (k + 2) % 2 == k % 2 { }
  }

  /** What speech reads is the displayed text parts, each block replaced by the placeholder. */
  lemma {:induction false} ScrubIsSplitSpoken(s: string)
    decreases |s|
    ensures ScrubCode(s) == JoinSpoken(SplitBlocks(s))
  {
    match FirstBlock(s, 0)
    case None =>
      assert Join([s]) == s + Join([]);
    case Some((i, e)) =>
      ScrubIsSplitSpoken(s[e..]);
      var parts := [s[..i], s[i..e]] + SplitBlocks(s[e..]);
      assert parts[2..] == SplitBlocks(s[e..]);
  }

  lemma NoBacktickInPlaceholder(j: int)
    ensures 0 <= j < |CodePlaceholder| ==> CodePlaceholder[j] != '`'
  {
  }

  /** A fence-free prefix and a placeholder cannot contribute to a block: every block lies in the tail. */
  lemma PrefixPlaceholderKeepsNoBlock(a: string, b: string)
    requires NoFence(a) && NoBlock(b)
    ensures NoBlock(a + CodePlaceholder + b)
  {
    var u := a + CodePlaceholder + b;
    var off := |a| + |CodePlaceholder|;
    forall i | BlockAt(u, i) ensures false {
      var j := FindFence(u, i + 3).value;
      FenceInTail(a, b, i);
      FenceInTail(a, b, j);
      assert FindFence(b, i - off + 3).Some?;
      assert BlockAt(b, i - off);
    }
  }

  /** Behind a fence-free prefix and the placeholder, every fence is one of the tail's. */
  lemma FenceInTail(a: string, b: string, f: int)
    requires NoFence(a) && FenceAt(a + CodePlaceholder + b, f)
    ensures f >= |a| + |CodePlaceholder| && FenceAt(b, f - |a| - |CodePlaceholder|)
  {
    var u := a + CodePlaceholder + b;
    var off := |a| + |CodePlaceholder|;
    if f + 3 <= |a| {
      assert u[..|a|] == a;
      FenceInSlice(u, 0, |a|, f);
    } else if f < off {
      var q := if f < |a| then |a| else f;
      assert f <= q < f + 3 && u[q] == '`';
      assert u[q] == CodePlaceholder[q - |a|];
      NoBacktickInPlaceholder(q - |a|);
    } else {
      assert u[off..] == b;
      FenceInSlice(u, off, |u|, f - off);
    }
  }

  /** Scrubbing is idempotent. */
  lemma ScrubIdempotent(s: string)
    ensures ScrubCode(ScrubCode(s)) == ScrubCode(s)
  {
  }

  /** `\w`: ASCII letters, digits and underscore. */
  predicate IsWordChar(c: char) {
    'a' <= c <= 'z' || 'A' <= c <= 'Z' || '0' <= c <= '9' || c == '_'
  }

  /** The end of the longest run of word characters starting at `k` (the greedy `\w*`). */
  function WordRunEnd(s: string, k: nat): (r: nat)
    requires k <= |s|
    decreases |s| - k
    ensures k <= r <= |s|
    ensures forall j :: k <= j < r ==> IsWordChar(s[j])
    ensures r == |s| || !IsWordChar(s[r])
  {
    if k < |s| && IsWordChar(s[k]) then WordRunEnd(s, k + 1) else k
  }

  /**
   * `/```(\w*)\n([\s\S]*?)```/` tried at position `i`: the language (the word run
   * after the fence, which must be followed by a newline) and the body (up to the
   * next fence). Backtracking `\w*` cannot help, since a shorter run is followed by
   * a word character, not a newline.
   */
  function MatchCodeAt(s: string, i: nat): (r: Option<(string, string)>)
    ensures r.Some? ==> FenceAt(s, i)
    ensures r.Some? ==>
      var nl := i + 3 + |r.value.0|;
      var e := nl + 1 + |r.value.1|;
      e + 3 <= |s| && s[nl] == '\n' && r.value.0 == s[i + 3..nl] && r.value.1 == s[nl + 1..e] &&
      (forall j :: i + 3 <= j < nl ==> IsWordChar(s[j])) &&
      FenceAt(s, e) && (forall j :: nl + 1 <= j < e ==> !FenceAt(s, j))
  {
    if !FenceAt(s, i) then None
    else
      var nl := WordRunEnd(s, i + 3);
      if nl < |s| && s[nl] == '\n' then
        match FindFence(s, nl + 1)
        case None => None
        case Some(j) => Some((s[i + 3..nl], s[nl + 1..j]))
      else None
  }

  /** `part.match(/```(\w*)\n([\s\S]*?)```/)`: the first position, from `k` on, where it matches. */
  function MatchCode(s: string, k: nat): (r: Option<(string, string)>)
    decreases |s| - k
    ensures r.None? ==> forall i :: k <= i ==> MatchCodeAt(s, i).None?
    ensures r.Some? ==> exists i :: k <= i && MatchCodeAt(s, i) == r && forall j :: k <= j < i ==> MatchCodeAt(s, j).None?
  {
    if k + 3 > |s| then None
    else match MatchCodeAt(s, k)
      case Some(m) => Some(m)
      case None => MatchCode(s, k + 1)
  }

  /** A part with no fenced block never reads as code. */
  lemma {:induction false} NoBlockNoCode(s: string, k: nat)
    requires NoBlock(s)
    decreases |s| - k
    ensures MatchCode(s, k) == None
  {
    if k + 3 <= |s| {
      if MatchCodeAt(s, k).Some? {
        var nl := WordRunEnd(s, k + 3);
        var j := FindFence(s, nl + 1).value;
        assert FenceAt(s, j) && k + 3 <= j;
        assert FindFence(s, k + 3).Some?;
        assert BlockAt(s, k);
      }
      NoBlockNoCode(s, k + 1);
    }
  }

  /** A block part whose opening fence is followed by a run of word characters and then a newline. */
  predicate OpensWithLanguage(b: string) {
    |b| >= 3 && WordRunEnd(b, 3) < |b| && b[WordRunEnd(b, 3)] == '\n'
  }

  /** The word run after the opening fence (possibly empty). */
  function BlockLanguage(b: string): string
    requires OpensWithLanguage(b)
  {
    b[3..WordRunEnd(b, 3)]
  }

  /** What lies between the newline after the language and the closing fence. */
  function BlockBody(b: string): string
    requires IsBlock(b) && OpensWithLanguage(b)
  {
    var nl := WordRunEnd(b, 3);
    assert nl + 4 <= |b| by { assert FenceAt(b, |b| - 3); }
    b[nl + 1..|b| - 3]
  }

  /** On a block part of that shape the unanchored match succeeds at the start and reads the whole block. */
  lemma AnchoredCodeMatch(b: string)
    requires IsBlock(b) && OpensWithLanguage(b)
    ensures MatchCode(b, 0) == Some((BlockLanguage(b), BlockBody(b)))
  {
    var nl := WordRunEnd(b, 3);
    var c := |b| - 3;
    assert FenceAt(b, c);
    assert nl < c;
    FindFenceUnique(b, nl + 1, c);
    assert MatchCodeAt(b, 0) == Some((b[3..nl], b[nl + 1..c]));
  }

  /** A block part written ```` ```lang\nbody``` ```` reads as language `lang` and body `body`. */
  lemma BlockParses(b: string, lang: string, body: string)
    requires IsBlock(b)
    requires b == Fence + lang + "\n" + body + Fence
    requires forall j :: 0 <= j < |lang| ==> IsWordChar(lang[j])
    ensures MatchCode(b, 0) == Some((lang, body))
  {
    var nl := 3 + |lang|;
    assert b[nl] == '\n';
    forall j | 3 <= j < nl ensures IsWordChar(b[j]) {
      assert b[j] == lang[j - 3];
    }
    var r := WordRunEnd(b, 3);
    assert r == nl;
    var c := |b| - 3;
    FindFenceUnique(b, nl + 1, c);
    assert b[3..nl] == lang;
    assert b[nl + 1..c] == body;
  }
}
