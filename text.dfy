/** The JavaScript string primitives the checklist gate relies on:
    white space as `String.prototype.trim` and the regular-expression class
    `\s` see it, `trim` itself, and `split(/\r?\n/)`. */
module Text {
  import opened Wrappers

  /** ECMAScript white space: the WhiteSpace code points (tab, vertical tab,
      form feed, no-break space, zero-width no-break space and the Unicode
      space separators) together with the LineTerminator code points (line
      feed, carriage return, line and paragraph separator). `trim` and `\s`
      use this same set. No printable ASCII character is white space, so
      brackets, bullets and letters never are. */
  predicate IsWs(c: char): (b: bool)
    ensures b ==> !('!' <= c <= '~')
    ensures c == ' ' || c == '\t' || c == '\r' || c == '\n' ==> b
  {
    || c == '\t' || c == '\n' || c == '\U{000B}' || c == '\U{000C}' || c == '\r'
    || c == ' ' || c == '\U{00A0}' || c == '\U{1680}'
    || ('\U{2000}' <= c <= '\U{200A}')
    || c == '\U{2028}' || c == '\U{2029}' || c == '\U{202F}' || c == '\U{205F}'
    || c == '\U{3000}' || c == '\U{FEFF}'
  }

  predicate AllWs(s: string)
  {
    forall k :: 0 <= k < |s| ==> IsWs(s[k])
  }

  /** s has no white space at either end. */
  predicate IsTrimmed(s: string)
  {
    s == [] || (!IsWs(s[0]) && !IsWs(s[|s| - 1]))
  }

  /** Length of the run of white space in s starting at position i: what a
      greedy `\s*` (or `\s+`) consumes there. */
  function WsRun(s: string, i: nat): (n: nat)
    requires i <= |s|
    ensures i + n <= |s|
    decreases |s| - i
  {
    if i < |s| && IsWs(s[i]) then 1 + WsRun(s, i + 1) else 0
  }

  /** The run is all white space and cannot be extended. */
  lemma {:induction false} WsRunIsMaximal(s: string, i: nat)
    requires i <= |s|
    ensures forall k :: i <= k < i + WsRun(s, i) ==> IsWs(s[k])
    ensures i + WsRun(s, i) == |s| || !IsWs(s[i + WsRun(s, i)])
    decreases |s| - i
  {
    if i < |s| && IsWs(s[i]) {
      WsRunIsMaximal(s, i + 1);
    }
  }

  /** Conversely, a white-space stretch from m up to a non-white character at
      i is exactly the run from m. */
  lemma {:induction false} WsRunStopsAt(s: string, m: nat, i: nat)
    requires m <= i < |s| && !IsWs(s[i])
    requires forall k :: m <= k < i ==> IsWs(s[k])
    ensures WsRun(s, m) == i - m
    decreases i - m
  {
    if m < i {
      WsRunStopsAt(s, m + 1, i);
    }
  }

  /** `s.trimStart()`: a suffix of s that does not start with white space. */
  function TrimStart(s: string): (r: string)
    ensures |r| <= |s|
    ensures r == [] || !IsWs(r[0])
  {
    if s != [] && IsWs(s[0]) then TrimStart(s[1..]) else s
  }

  /** `s.trimEnd()`: a prefix of s that does not end with white space. */
  function TrimEnd(s: string): (r: string)
    ensures |r| <= |s|
    ensures r == [] || !IsWs(r[|r| - 1])
  {
    if s != [] && IsWs(s[|s| - 1]) then TrimEnd(s[..|s| - 1]) else s
  }

  /** `s.trim()`: s without its leading and trailing white space. */
  function Trim(s: string): (r: string)
    ensures IsTrimmed(r)
  {
    TrimEndSplits(TrimStart(s));
    TrimEnd(TrimStart(s))
  }

  /** trimStart removes a white-space prefix and keeps the rest. */
  lemma {:induction false} TrimStartSplits(s: string)
    ensures TrimStart(s) == s[|s| - |TrimStart(s)|..]
    ensures AllWs(s[..|s| - |TrimStart(s)|])
  {
    if s != [] && IsWs(s[0]) {
      TrimStartSplits(s[1..]);
      var n := |s| - |TrimStart(s)|;
      assert s[1..][n - 1..] == s[n..];
      var w := s[..n];
      forall k | 0 <= k < n ensures IsWs(w[k]) {
        if k > 0 { assert w[k] == s[1..][..n - 1][k - 1]; }
      }
    }
  }

  /** trimEnd removes a white-space suffix and keeps the rest. */
  lemma {:induction false} TrimEndSplits(s: string)
    ensures TrimEnd(s) == s[..|TrimEnd(s)|]
    ensures AllWs(s[|TrimEnd(s)|..])
  {
    if s != [] && IsWs(s[|s| - 1]) {
      var s' := s[..|s| - 1];
      TrimEndSplits(s');
      var m := |TrimEnd(s)|;
      assert s'[..m] == s[..m];
      var w := s[m..];
      forall k | 0 <= k < |s| - m ensures IsWs(w[k]) {
        if m + k < |s| - 1 { assert w[k] == s'[m..][k]; }
      }
    }
  }

  /** trimStart stops at the first non-white character. */
  lemma {:induction false} TrimStartAt(s: string, i: nat)
    requires i <= |s| && AllWs(s[..i]) && (i == |s| || !IsWs(s[i]))
    ensures TrimStart(s) == s[i..]
  {
    if i > 0 {
      assert s[..i][0] == s[0];
      assert AllWs(s[1..][..i - 1]) by {
        var t := s[1..][..i - 1];
        forall k | 0 <= k < i - 1 ensures IsWs(t[k]) {
          assert t[k] == s[..i][k + 1];
        }
      }
      assert i - 1 == |s[1..]| || s[1..][i - 1] == s[i];
      TrimStartAt(s[1..], i - 1);
    }
  }

  /** trimEnd stops after the last non-white character. */
  lemma {:induction false} TrimEndAt(s: string, j: nat)
    requires j <= |s| && AllWs(s[j..]) && (j == 0 || !IsWs(s[j - 1]))
    ensures TrimEnd(s) == s[..j]
    decreases |s| - j
  {
    if j < |s| {
      var s' := s[..|s| - 1];
      assert s[j..][|s| - 1 - j] == s[|s| - 1];
      assert AllWs(s'[j..]) by {
        forall k | 0 <= k < |s'| - j ensures IsWs(s'[j..][k]) {
          assert s'[j..][k] == s[j..][k];
        }
      }
      assert j == 0 || s'[j - 1] == s[j - 1];
      TrimEndAt(s', j);
      assert s'[..j] == s[..j];
    }
  }

  /** Trim(s) is the piece of s starting at position i, and everything
      around that piece is white space. */
  lemma TrimSlice(s: string) returns (i: nat)
    ensures i + |Trim(s)| <= |s| && s[i..i + |Trim(s)|] == Trim(s)
    ensures AllWs(s[..i]) && AllWs(s[i + |Trim(s)|..])
  {
    var t := TrimStart(s);
    i := |s| - |t|;
    TrimStartSplits(s);
    TrimEndSplits(t);
    var r := Trim(s);
    assert t == s[i..];
    assert s[i..i + |r|] == t[..|r|];
    assert s[i + |r|..] == t[|r|..];
  }

  /** Trim is determined by its contract: cutting white space off both ends
      of s down to a trimmed core yields exactly Trim(s). */
  lemma TrimUnique(s: string, i: nat, j: nat)
    requires i <= j <= |s|
    requires AllWs(s[..i]) && AllWs(s[j..]) && IsTrimmed(s[i..j])
    ensures Trim(s) == s[i..j]
  {
    if i == j {
      TrimOfBlank(s, i);
    } else {
      TrimOfCore(s, i, j);
    }
  }

  lemma TrimOfBlank(s: string, i: nat)
    requires i <= |s| && AllWs(s[..i]) && AllWs(s[i..])
    ensures Trim(s) == []
  {
    assert AllWs(s[..|s|]) by {
      forall k | 0 <= k < |s| ensures IsWs(s[..|s|][k]) {
        if k < i { assert s[..|s|][k] == s[..i][k]; } else { assert s[..|s|][k] == s[i..][k - i]; }
      }
    }
    TrimStartAt(s, |s|);
  }

  lemma TrimOfCore(s: string, i: nat, j: nat)
    requires i < j <= |s|
    requires AllWs(s[..i]) && AllWs(s[j..]) && IsTrimmed(s[i..j])
    ensures Trim(s) == s[i..j]
  {
    assert s[i..j][0] == s[i] && s[i..j][j - i - 1] == s[j - 1];
    TrimStartAt(s, i);
    var rest := s[i..];
    assert rest[j - i..] == s[j..];
    TrimEndAt(rest, j - i);
    assert rest[..j - i] == s[i..j];
  }

  /** Trim leaves nothing exactly when s is all white space. */
  lemma TrimEmptyIff(s: string)
    ensures Trim(s) == [] <==> AllWs(s)
  {
    var i := TrimSlice(s);
    if Trim(s) == [] {
      forall k | 0 <= k < |s| ensures IsWs(s[k]) {
        if k < i { assert s[..i][k] == s[k]; } else { assert s[i..][k - i] == s[k]; }
      }
    }
    if AllWs(s) {
      assert s[..|s|] == s && s[|s|..] == [];
      TrimUnique(s, |s|, |s|);
    }
  }

  /** Trimming a trimmed string changes nothing; hence trim is idempotent. */
  lemma TrimOfTrimmed(s: string)
    requires IsTrimmed(s)
    ensures Trim(s) == s
  {
    assert s[..0] == [] && s[|s|..] == [] && s[0..|s|] == s;
    TrimUnique(s, 0, |s|);
  }

  lemma TrimIdempotent(s: string)
    ensures Trim(Trim(s)) == Trim(s)
  {
    TrimOfTrimmed(Trim(s));
  }

  /** White space in front of t does not change t's trimmed form. */
  lemma TrimSkipsLeadingWs(w: string, t: string)
    requires AllWs(w)
    ensures Trim(w + t) == Trim(t)
  {
    TrimStartSkipsWs(w, t);
  }

  lemma {:induction false} TrimStartSkipsWs(w: string, t: string)
    requires AllWs(w)
    ensures TrimStart(w + t) == TrimStart(t)
  {
    if w != [] {
      assert (w + t)[0] == w[0];
      assert (w + t)[1..] == w[1..] + t;
      assert AllWs(w[1..]) by {
        forall k | 0 <= k < |w| - 1 ensures IsWs(w[1..][k]) { assert w[1..][k] == w[k + 1]; }
      }
      TrimStartSkipsWs(w[1..], t);
    } else {
      assert w + t == t;
    }
  }

  /** Trimming introduces no character. */
  lemma TrimAddsNothing(s: string, c: char)
    requires c !in s
    ensures c !in Trim(s)
  {
    var r := Trim(s);
    var i := TrimSlice(s);
    assert forall k :: 0 <= k < |r| ==> r[k] == s[i + k];
  }

  /** Position of the first occurrence of c in s. */
  function IndexOf(s: string, c: char): (r: Option<nat>)
    ensures r.None? <==> c !in s
    ensures r.Some? ==> r.value < |s| && s[r.value] == c && c !in s[..r.value]
  {
    if s == [] then None
    else if s[0] == c then Some(0)
    else match IndexOf(s[1..], c)
      case None => None
      case Some(i) =>
        assert s[..i + 1] == [s[0]] + s[1..][..i];
        Some(i + 1)
  }

  /** p without one trailing carriage return. */
  function DropCr(p: string): string
  {
    if p != [] && p[|p| - 1] == '\r' then p[..|p| - 1] else p
  }

  /** A carriage return at the end is white space, so dropping it does not
      change the trimmed form. */
  lemma TrimDropCr(p: string)
    ensures Trim(DropCr(p)) == Trim(p)
  {
    if p != [] && p[|p| - 1] == '\r' {
      var q := p[..|p| - 1];
      var t := Trim(q);
      var i := TrimSlice(q);
      assert p[..i] == q[..i];
      assert p[i..i + |t|] == q[i..i + |t|];
      assert p[i + |t|..] == q[i + |t|..] + ['\r'];
      TrimUnique(p, i, i + |t|);
    }
  }

  /** `s.split(/\r?\n/)`. Every match of `\r?\n` ends at a line feed, so the
      leftmost match ends at the first line feed of s and starts one character
      earlier when a carriage return precedes it. An input without a line
      feed, the empty string included, is a single piece. */
  function SplitLines(s: string): (lines: seq<string>)
    ensures |lines| == multiset(s)['\n'] + 1
    ensures forall k :: 0 <= k < |lines| ==> '\n' !in lines[k]
    decreases |s|
  {
    match IndexOf(s, '\n')
    case None => [s]
    case Some(i) =>
      assert s == s[..i] + ['\n'] + s[i + 1..];
      assert multiset(s)['\n'] == multiset(s[..i])['\n'] + 1 + multiset(s[i + 1..])['\n'];
      var piece := DropCr(s[..i]);
      [piece] + SplitLines(s[i + 1..])
  }

  /** `parts.join(sep)`. */
  function Join(parts: seq<string>, sep: string): string
  {
    if parts == [] then ""
    else if |parts| == 1 then parts[0]
    else parts[0] + sep + Join(parts[1..], sep)
  }

  /** The first line feed of p + "\n" + q, when p has none, is the one after p. */
  lemma IndexOfFirstLf(p: string, q: string)
    requires '\n' !in p
    ensures IndexOf(p + ['\n'] + q, '\n') == Some(|p|)
  {
    var s := p + ['\n'] + q;
    assert s[|p|] == '\n';
    var r := IndexOf(s, '\n');
  }

  /** A line feed with no earlier one ends the first piece, a carriage
      return just before it going with the separator. */
  lemma SplitLinesAtFirstLf(head: string, rest: string)
    requires '\n' !in head
    ensures SplitLines(head + ['\n'] + rest) == [DropCr(head)] + SplitLines(rest)
  {
    var s := head + ['\n'] + rest;
    IndexOfFirstLf(head, rest);
    assert s[..|head|] == head;
    assert s[|head| + 1..] == rest;
  }

  /** One step of SplitLinesOfJoin: the first separator ends the first part. */
  lemma SplitLinesOfJoinStep(parts: seq<string>, sep: string)
    requires |parts| >= 2 && '\n' !in parts[0]
    requires sep == "\r\n" || (sep == "\n" && DropCr(parts[0]) == parts[0])
    ensures SplitLines(Join(parts, sep)) == [parts[0]] + SplitLines(Join(parts[1..], sep))
  {
    var rest := Join(parts[1..], sep);
    var head := if sep == "\n" then parts[0] else parts[0] + ['\r'];
    assert Join(parts, sep) == head + ['\n'] + rest;
    if sep == "\r\n" {
      assert head[..|head| - 1] == parts[0];
    }
    SplitLinesAtFirstLf(head, rest);
  }

  /** Splitting undoes joining with "\r\n", and with "\n" as long as no piece
      but the last ends in a carriage return (which `\r?\n` would take as part
      of the separator). */
  lemma {:induction false} SplitLinesOfJoin(parts: seq<string>, sep: string)
    requires |parts| >= 1
    requires forall k :: 0 <= k < |parts| ==> '\n' !in parts[k]
    requires sep == "\r\n" || (sep == "\n" && forall k :: 0 <= k < |parts| - 1 ==> DropCr(parts[k]) == parts[k])
    ensures SplitLines(Join(parts, sep)) == parts
  {
    if |parts| == 1 {
      assert IndexOf(parts[0], '\n').None?;
    } else {
      var tail := parts[1..];
      assert forall k :: 0 <= k < |tail| ==> tail[k] == parts[k + 1];
      SplitLinesOfJoinStep(parts, sep);
      SplitLinesOfJoin(tail, sep);
      assert parts == [parts[0]] + tail;
    }
  }
}
