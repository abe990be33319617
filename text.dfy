/**
 * The pieces of Swift's `String` API that the word game relies on, over
 * strings modelled as sequences of Unicode scalar values:
 * `lowercased()`, `utf16.count`, `range(of:)`, `remove(at:)` and
 * `components(separatedBy:)`.
 */
module Text {

  datatype Option<T> = None | Some(value: T)

  /** Lower-cases one scalar: ASCII capitals map to small letters, everything else is kept. */
  function LowerChar(c: char): (r: char)
    ensures !('A' <= r <= 'Z')
    ensures r != c <==> 'A' <= c <= 'Z'
  {
    if 'A' <= c <= 'Z' then (c as int + 32) as char else c
  }

  /** `String.lowercased()`: lowers every scalar, one for one. */
  function Lowercased(s: string): (r: string)
    ensures |r| == |s|
    ensures forall i :: 0 <= i < |s| ==> !('A' <= r[i] <= 'Z')
    ensures forall i :: 0 <= i < |s| ==> (r[i] == s[i] <==> !('A' <= s[i] <= 'Z'))
  {
    seq(|s|, i requires 0 <= i < |s| => LowerChar(s[i]))
  }

  /** A string that lowering leaves alone: it holds no ASCII capital. */
  predicate IsLowercase(s: string) {
    forall i :: 0 <= i < |s| ==> !('A' <= s[i] <= 'Z')
  }

  lemma LowercasedIsLowercase(s: string)
    ensures IsLowercase(Lowercased(s))
    ensures Lowercased(Lowercased(s)) == Lowercased(s)
  {
    var t := Lowercased(s);
    assert forall i :: 0 <= i < |t| ==> Lowercased(t)[i] == LowerChar(LowerChar(s[i])) == t[i];
  }

  lemma {:induction false} LowercaseFixed(s: string)
    ensures Lowercased(s) == s <==> IsLowercase(s)
  {
    if IsLowercase(s) {
      assert forall i :: 0 <= i < |s| ==> Lowercased(s)[i] == s[i];
    } else {
      var i :| 0 <= i < |s| && 'A' <= s[i] <= 'Z';
      assert Lowercased(s)[i] != s[i];
    }
  }

  /** `String.utf16.count`: scalars beyond the Basic Multilingual Plane take two code units. */
  function Utf16Length(s: string): (n: nat)
    ensures |s| <= n <= 2 * |s|
    ensures (forall i :: 0 <= i < |s| ==> (s[i] as int) < 0x1_0000) ==> n == |s|
    ensures (exists i :: 0 <= i < |s| && (s[i] as int) >= 0x1_0000) ==> n > |s|
  {
    if s == [] then 0
    else
      assert forall i :: 0 < i < |s| ==> s[1..][i - 1] == s[i];
      (if (s[0] as int) < 0x1_0000 then 1 else 2) + Utf16Length(s[1..])
  }

  /**
   * `range(of: String(c))?.lowerBound` for a one-scalar needle: the index of
   * the first occurrence of `c`, or None when `c` does not occur.
   */
  function IndexOf(s: string, c: char): (r: Option<nat>)
    ensures r.None? <==> c !in s
    ensures r.Some? ==> r.value < |s| && s[r.value] == c && c !in s[..r.value]
  {
    if s == [] then None
    else if s[0] == c then Some(0)
    else match IndexOf(s[1..], c)
      case None => None
      case Some(k) =>
        assert s[..k + 1] == [s[0]] + s[1..][..k];
        Some(k + 1)
  }

  /** `String.remove(at:)`: drops the scalar at index `i`. */
  function RemoveAt(s: string, i: nat): (r: string)
    requires i < |s|
    ensures |r| == |s| - 1
    ensures multiset(r) + multiset{s[i]} == multiset(s)
    ensures forall j :: 0 <= j < i ==> r[j] == s[j]
    ensures forall j :: i <= j < |r| ==> r[j] == s[j + 1]
  {
    assert s == s[..i] + [s[i]] + s[i + 1..];
    s[..i] + s[i + 1..]
  }

  /**
   * `String.components(separatedBy:)` for a one-scalar separator: the pieces
   * between separators, in order; an empty text or a trailing separator gives
   * an empty piece, so there is always at least one.
   */
  function Components(s: string, sep: char): (r: seq<string>)
    ensures |r| >= 1
    ensures forall k :: 0 <= k < |r| ==> sep !in r[k]
  {
    if s == [] then [""]
    else
      var rest := Components(s[1..], sep);
      if s[0] == sep then [""] + rest
      else
        assert forall k :: 1 <= k < |rest| ==> ([[s[0]] + rest[0]] + rest[1..])[k] == rest[k];
        [[s[0]] + rest[0]] + rest[1..]
  }

  /** The inverse of Components: the pieces glued back with the separator between them. */
  function Join(parts: seq<string>, sep: char): string
    requires |parts| >= 1
  {
    if |parts| == 1 then parts[0] else parts[0] + [sep] + Join(parts[1..], sep)
  }

  /** One step of Components, for a text that starts with `c`. */
  lemma ComponentsCons(c: char, t: string, sep: char)
    ensures Components([c] + t, sep) ==
      if c == sep then [""] + Components(t, sep)
      else [[c] + Components(t, sep)[0]] + Components(t, sep)[1..]
  {
    assert ([c] + t)[1..] == t;
  }

  /** One step of Join, for at least two pieces. */
  lemma JoinCons(p: string, parts: seq<string>, sep: char)
    requires |parts| >= 1
    ensures Join([p] + parts, sep) == p + [sep] + Join(parts, sep)
  {
    assert ([p] + parts)[1..] == parts;
  }

  lemma {:induction false} JoinComponents(s: string, sep: char)
    ensures Join(Components(s, sep), sep) == s
  {
    if s != [] {
      var t := s[1..];
      assert s == [s[0]] + t;
      var rest := Components(t, sep);
      JoinComponents(t, sep);
      ComponentsCons(s[0], t, sep);
      if s[0] == sep {
        JoinCons("", rest, sep);
      } else if |rest| == 1 {
        assert Components(s, sep) == [[s[0]] + rest[0]];
      } else {
        assert rest == [rest[0]] + rest[1..];
        JoinCons(rest[0], rest[1..], sep);
        JoinCons([s[0]] + rest[0], rest[1..], sep);
      }
    }
  }

  lemma {:induction false} ComponentsJoin(parts: seq<string>, sep: char)
    requires |parts| >= 1
    requires forall k :: 0 <= k < |parts| ==> sep !in parts[k]
    ensures Components(Join(parts, sep), sep) == parts
  {
    if |parts| == 1 {
      ComponentsOfPiece(parts[0], sep);
    } else {
      var rest := parts[1..];
      assert parts == [parts[0]] + rest;
      var tail := Join(rest, sep);
      JoinCons(parts[0], rest, sep);
      ComponentsJoin(rest, sep);
      ComponentsCons(sep, tail, sep);
      ComponentsPrefix(parts[0], [sep] + tail, sep);
      assert parts[0] + [sep] + tail == parts[0] + ([sep] + tail);
      assert parts[0] + "" == parts[0];
    }
  }

  lemma {:induction false} ComponentsOfPiece(p: string, sep: char)
    requires sep !in p
    ensures Components(p, sep) == [p]
  {
    if p != [] {
      var t := p[1..];
      assert p == [p[0]] + t;
      assert sep !in t;
      ComponentsOfPiece(t, sep);
      ComponentsCons(p[0], t, sep);
    }
  }

  /** A separator-free prefix sticks to the first component of what follows it. */
  lemma {:induction false} ComponentsPrefix(p: string, t: string, sep: char)
    requires sep !in p
    ensures Components(p + t, sep) == [p + Components(t, sep)[0]] + Components(t, sep)[1..]
  {
    var c := Components(t, sep);
    if p == [] {
      assert p + t == t && p + c[0] == c[0];
      assert c == [c[0]] + c[1..];
    } else {
      var q := p[1..];
      assert p == [p[0]] + q;
      assert p + t == [p[0]] + (q + t);
      assert sep !in q;
      ComponentsPrefix(q, t, sep);
      ComponentsCons(p[0], q + t, sep);
      assert [p[0]] + (q + c[0]) == p + c[0];
    }
  }
}
