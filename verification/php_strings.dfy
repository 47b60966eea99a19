/**
  The PHP string built-ins the client relies on, over byte strings modelled as
  `string`: `trim` with its default character list, `str_replace(' ', '', …)`
  and `explode` on the one-character separator `|`. `implode` is not called by
  the client; it is here as the inverse that states what `explode` does.
*/
module PhpStrings {

  /** The characters `trim` strips when no character list is given:
      space, tab, line feed, carriage return, NUL and vertical tab. */
  predicate IsTrimChar(c: char) {
    c == ' ' || c == '\t' || c == '\n' || c == '\r' || c == '\0' || c == '\U{B}'
  }

  /** The end of `s[..j]` once its trailing trimmable characters are dropped. */
  function TrimEnd(s: string, j: nat): (e: nat)
    requires j <= |s|
    ensures e <= j
    ensures e > 0 ==> !IsTrimChar(s[e - 1])
    decreases j
  {
    if j > 0 && IsTrimChar(s[j - 1]) then TrimEnd(s, j - 1) else j
  }

  /** Every character `TrimEnd` drops is trimmable. */
  lemma {:induction false} TrimEndDropsPadding(s: string, j: nat, k: nat)
    requires j <= |s|
    requires TrimEnd(s, j) <= k < j
    ensures IsTrimChar(s[k])
    decreases j
  {
    if k < j - 1 {
      TrimEndDropsPadding(s, j - 1, k);
    }
  }

  /** `TrimEnd` steps over trimmable characters and stops at any other one. */
  lemma {:induction false} TrimEndAt(s: string, m: nat, j: nat)
    requires m <= j <= |s|
    requires forall k :: m <= k < j ==> IsTrimChar(s[k])
    requires m > 0 ==> !IsTrimChar(s[m - 1])
    ensures TrimEnd(s, j) == m
    decreases j
  {
    if j > m {
      TrimEndAt(s, m, j - 1);
    }
  }

  /** The start of `s[i..e]` once its leading trimmable characters are dropped. */
  function TrimStart(s: string, i: nat, e: nat): (b: nat)
    requires i <= e <= |s|
    ensures i <= b <= e
    ensures b < e ==> !IsTrimChar(s[b])
    decreases e - i
  {
    if i < e && IsTrimChar(s[i]) then TrimStart(s, i + 1, e) else i
  }

  /** Every character `TrimStart` drops is trimmable. */
  lemma {:induction false} TrimStartDropsPadding(s: string, i: nat, e: nat, k: nat)
    requires i <= e <= |s|
    requires i <= k < TrimStart(s, i, e)
    ensures IsTrimChar(s[k])
    decreases e - i
  {
    if k > i {
      TrimStartDropsPadding(s, i + 1, e, k);
    }
  }

  /** `TrimStart` steps over trimmable characters and stops at any other one. */
  lemma {:induction false} TrimStartAt(s: string, i: nat, m: nat, e: nat)
    requires i <= m <= e <= |s|
    requires forall k :: i <= k < m ==> IsTrimChar(s[k])
    requires m < e ==> !IsTrimChar(s[m])
    ensures TrimStart(s, i, e) == m
    decreases e - i
  {
    if i < m {
      TrimStartAt(s, i + 1, m, e);
    }
  }

  /** A string with no trimmable character at either end. */
  predicate IsTrimmed(s: string) {
    s == [] || (!IsTrimChar(s[0]) && !IsTrimChar(s[|s| - 1]))
  }

  /** PHP `trim($s)`: drops the trimmable characters at both ends. */
  function Trim(s: string): (r: string)
    ensures |r| <= |s|
    ensures IsTrimmed(r)
  {
    var e := TrimEnd(s, |s|);
    s[TrimStart(s, 0, e)..e]
  }

  /** `Trim` removes only trimmable characters: `Trim(s)` is the infix
      `s[b..e]`, and every character before `b` or from `e` on is padding. */
  lemma TrimDropsPadding(s: string, k: nat)
    requires k < |s|
    ensures var e := TrimEnd(s, |s|);
      var b := TrimStart(s, 0, e);
      && Trim(s) == s[b..e]
      && (k < b || e <= k ==> IsTrimChar(s[k]))
  {
    var e := TrimEnd(s, |s|);
    var b := TrimStart(s, 0, e);
    if k < b {
      TrimStartDropsPadding(s, 0, e, k);
    } else if e <= k {
      TrimEndDropsPadding(s, |s|, k);
    }
  }

  /** `Trim` is the unique way of cutting `s` into trimmable padding around a
      trimmed middle: whenever `s == s[..i] + s[i..j] + s[j..]` with padding made
      of trimmable characters only and `s[i..j]` trimmed, `Trim(s)` is `s[i..j]`. */
  lemma TrimUnique(s: string, i: nat, j: nat)
    requires i <= j <= |s|
    requires forall k :: 0 <= k < i ==> IsTrimChar(s[k])
    requires forall k :: j <= k < |s| ==> IsTrimChar(s[k])
    requires IsTrimmed(s[i..j])
    ensures Trim(s) == s[i..j]
  {
    if i == j {
      forall k | 0 <= k < |s| ensures IsTrimChar(s[k]) {
        if k >= j { } else { assert k < i; }
      }
      TrimEndAt(s, 0, |s|);
      TrimStartAt(s, 0, 0, 0);
    } else {
      assert !IsTrimChar(s[i]) && !IsTrimChar(s[j - 1]) by {
        assert s[i..j][0] == s[i];
        assert s[i..j][j - i - 1] == s[j - 1];
      }
      TrimEndAt(s, j, |s|);
      TrimStartAt(s, 0, i, j);
    }
  }

  /** A string that is already trimmed is left unchanged by `Trim`. */
  lemma TrimOfTrimmed(s: string)
    requires IsTrimmed(s)
    ensures Trim(s) == s
  {
    assert s[0..|s|] == s;
    TrimUnique(s, 0, |s|);
  }

  /** `trim` is idempotent. */
  lemma TrimIdempotent(s: string)
    ensures Trim(Trim(s)) == Trim(s)
  {
    TrimOfTrimmed(Trim(s));
  }

  /** PHP `str_replace(' ', '', $s)`: removes every space, keeps every other
      character in its order. */
  function RemoveSpaces(s: string): (r: string)
    ensures |r| <= |s|
    ensures ' ' !in r
  {
    if s == [] then [] else (if s[0] == ' ' then [] else [s[0]]) + RemoveSpaces(s[1..])
  }

  /** Every character other than a space occurs as often after the removal as
      before it. */
  lemma {:induction false} RemoveSpacesKeepsOthers(s: string, c: char)
    requires c != ' '
    ensures multiset(RemoveSpaces(s))[c] == multiset(s)[c]
  {
    if s != [] {
      RemoveSpacesKeepsOthers(s[1..], c);
      assert s == [s[0]] + s[1..];
    }
  }

  /** Removing spaces distributes over concatenation, so the characters that
      remain keep their relative order. */
  lemma {:induction false} RemoveSpacesAppend(a: string, b: string)
    ensures RemoveSpaces(a + b) == RemoveSpaces(a) + RemoveSpaces(b)
  {
    if a == [] {
      assert a + b == b;
    } else {
      assert (a + b)[0] == a[0];
      assert (a + b)[1..] == a[1..] + b;
      RemoveSpacesAppend(a[1..], b);
    }
  }

  /** Removing spaces keeps a trimmed string trimmed: its first and last
      characters are not spaces, so they stay first and last. */
  lemma RemoveSpacesKeepsEnds(t: string)
    requires IsTrimmed(t)
    ensures IsTrimmed(RemoveSpaces(t))
  {
    if t != [] {
      var init, last := t[..|t| - 1], t[|t| - 1];
      assert RemoveSpaces(t)[0] == t[0];
      RemoveSpacesAppend(init, [last]);
      assert init + [last] == t;
      assert RemoveSpaces([last]) == [last];
    }
  }

  /** A string without spaces is left unchanged. */
  lemma {:induction false} RemoveSpacesNoSpace(s: string)
    requires ' ' !in s
    ensures RemoveSpaces(s) == s
  {
    if s != [] {
      assert ' ' !in s[1..] by {
        forall k | 0 <= k < |s[1..]| ensures s[1..][k] != ' ' {
          assert s[1..][k] == s[k + 1];
        }
      }
      RemoveSpacesNoSpace(s[1..]);
    }
  }

  /** PHP `implode('|', $pieces)`. */
  function Implode(pieces: seq<string>): string {
    if |pieces| == 0 then ""
    else if |pieces| == 1 then pieces[0]
    else pieces[0] + "|" + Implode(pieces[1..])
  }

  /** PHP `explode('|', $s)`: the pieces between consecutive separators, of
      which there is always at least one. */
  function Explode(s: string): (pieces: seq<string>)
    ensures |pieces| >= 1
  {
    if |s| == 0 then [""]
    else
      var rest := Explode(s[1..]);
      if s[0] == '|' then [""] + rest
      else [[s[0]] + rest[0]] + rest[1..]
  }

  /** No piece contains the separator, and gluing the pieces back together
      gives `s` again. */
  lemma {:induction false} ImplodeExplode(s: string)
    ensures forall k :: 0 <= k < |Explode(s)| ==> '|' !in Explode(s)[k]
    ensures Implode(Explode(s)) == s
  {
    if |s| > 0 {
      var rest := Explode(s[1..]);
      ImplodeExplode(s[1..]);
      if s[0] == '|' {
        assert ([""] + rest)[1..] == rest;
      } else {
        var first := [s[0]] + rest[0];
        assert '|' !in first;
        assert ([first] + rest[1..])[1..] == rest[1..];
        assert s == [s[0]] + s[1..];
        assert |rest| > 1 ==> Implode(rest) == rest[0] + "|" + Implode(rest[1..]);
      }
    }
  }

  /** A piece without a separator followed by a separator starts a new piece. */
  lemma {:induction false} ExplodeAfterPiece(p: string, t: string)
    requires '|' !in p
    ensures Explode(p + "|" + t) == [p] + Explode(t)
  {
    if p == [] {
      assert p + "|" + t == "|" + t;
      assert ("|" + t)[1..] == t;
    } else {
      var s := p + "|" + t;
      assert s[0] == p[0];
      assert s[1..] == p[1..] + "|" + t;
      assert '|' !in p[1..];
      ExplodeAfterPiece(p[1..], t);
      assert [p[0]] + p[1..] == p;
    }
  }

  /** A string without a separator explodes into itself. */
  lemma {:induction false} ExplodeSinglePiece(p: string)
    requires '|' !in p
    ensures Explode(p) == [p]
  {
    if p != [] {
      assert '|' !in p[1..];
      ExplodeSinglePiece(p[1..]);
      assert [p[0]] + p[1..] == p;
    }
  }

  /** The other round trip: exploding the implosion of separator-free pieces
      gives the pieces back. With `ImplodeExplode` this says that `Explode` and
      `Implode` are inverse bijections between strings and non-empty lists of
      separator-free pieces. */
  lemma {:induction false} ExplodeImplode(pieces: seq<string>)
    requires |pieces| >= 1
    requires forall k :: 0 <= k < |pieces| ==> '|' !in pieces[k]
    ensures Explode(Implode(pieces)) == pieces
  {
    if |pieces| == 1 {
      ExplodeSinglePiece(pieces[0]);
    } else {
      assert '|' !in pieces[0];
      ExplodeImplode(pieces[1..]);
      ExplodeAfterPiece(pieces[0], Implode(pieces[1..]));
      assert [pieces[0]] + pieces[1..] == pieces;
    }
  }
}
