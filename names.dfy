/**
 * `norm_name` (app.py): the join key of a team name. The name is lower-cased
 * and every character outside `[a-z0-9]` is deleted; a missing or empty name
 * gives the empty key.
 */
module Names {
  import opened Wrappers
  import opened Seqs

  /** A character the key may contain: the complement of the class `[^a-z0-9]`. */
  predicate IsKeyChar(c: char) {
    ('a' <= c <= 'z') || ('0' <= c <= '9')
  }

  /** `str.lower` on one character, for the ASCII letters. */
  function LowerChar(c: char): char {
    if 'A' <= c <= 'Z' then (c as int - 'A' as int + 'a' as int) as char else c
  }

  function Lower(s: string): (t: string)
    ensures |t| == |s|
    ensures forall i :: 0 <= i < |s| ==> t[i] == LowerChar(s[i])
  {
    if s == [] then [] else [LowerChar(s[0])] + Lower(s[1..])
  }

  /** `re.sub(r"[^a-z0-9]+", "", s)`: deletes every run of non-key characters. */
  function StripNonKey(s: string): (r: string)
    ensures |r| <= |s|
    ensures forall i :: 0 <= i < |r| ==> IsKeyChar(r[i])
  {
    if s == [] then []
    else if IsKeyChar(s[0]) then [s[0]] + StripNonKey(s[1..])
    else StripNonKey(s[1..])
  }

  /** `norm_name`: `None` and `""` both give `""`. */
  function NormName(s: Option<string>): (key: string)
    ensures forall i :: 0 <= i < |key| ==> IsKeyChar(key[i])
    ensures s == None || s == Some("") ==> key == ""
  {
    match s
    case None => ""
    case Some(t) => if t == "" then "" else StripNonKey(Lower(t))
  }

  /** Stripping keeps exactly the key characters, each as often as it occurs,
   *  in their original order. */
  lemma {:induction false} StripNonKeyKeepsKeyChars(s: string)
    ensures Subsequence(StripNonKey(s), s)
    ensures forall c :: multiset(StripNonKey(s))[c] == if IsKeyChar(c) then multiset(s)[c] else 0
  {
    if s != [] {
      StripNonKeyKeepsKeyChars(s[1..]);
      assert s == [s[0]] + s[1..];
      assert multiset(s) == multiset{s[0]} + multiset(s[1..]);
    }
  }

  /** A string of key characters only is left unchanged, and only such a string. */
  lemma {:induction false} StripNonKeyFixpoint(s: string)
    ensures StripNonKey(s) == s <==> forall i :: 0 <= i < |s| ==> IsKeyChar(s[i])
  {
    if s != [] {
      StripNonKeyFixpoint(s[1..]);
      if !IsKeyChar(s[0]) {
        assert |StripNonKey(s)| < |s|;
      }
    }
  }

  /** Lower-casing does not touch key characters. */
  lemma {:induction false} LowerKeepsKeyChars(s: string)
    requires forall i :: 0 <= i < |s| ==> IsKeyChar(s[i])
    ensures Lower(s) == s
  {
    if s != [] {
      LowerKeepsKeyChars(s[1..]);
    }
  }

  /** The key of a key is itself. */
  lemma NormNameIdempotent(s: Option<string>)
    ensures NormName(Some(NormName(s))) == NormName(s)
  {
    var k := NormName(s);
    if k != "" {
      LowerKeepsKeyChars(k);
      StripNonKeyFixpoint(k);
    }
  }

  /** The key is the lower-cased name with every non-key character deleted:
   *  it keeps the key characters of the lower-cased name, in order and with
   *  their multiplicities, and nothing else. */
  lemma NormNameCharacterisation(t: string)
    ensures Subsequence(NormName(Some(t)), Lower(t))
    ensures forall c :: multiset(NormName(Some(t)))[c] == if IsKeyChar(c) then multiset(Lower(t))[c] else 0
  {
    StripNonKeyKeepsKeyChars(Lower(t));
  }

  /** Normalising a concatenation normalises each part. */
  lemma {:induction false} StripNonKeyAppend(a: string, b: string)
    ensures StripNonKey(a + b) == StripNonKey(a) + StripNonKey(b)
  {
    if a != [] {
      StripNonKeyAppend(a[1..], b);
      assert (a + b)[1..] == a[1..] + b;
    } else {
      assert a + b == b;
    }
  }

  lemma LowerAppend(a: string, b: string)
    ensures Lower(a + b) == Lower(a) + Lower(b)
  {
    assert forall i :: 0 <= i < |a + b| ==> Lower(a + b)[i] == (Lower(a) + Lower(b))[i];
  }

  /** Lower-casing is idempotent. */
  lemma LowerIdempotent(s: string)
    ensures Lower(Lower(s)) == Lower(s)
  {
  }

  /** Names that differ only in letter case have the same key. */
  lemma NormNameIgnoresCase(t: string)
    ensures NormName(Some(Lower(t))) == NormName(Some(t))
  {
    LowerIdempotent(t);
  }

  /** Separators carry no weight: the key of `a + sep + b`, where `sep` holds
   *  no key character, is the key of `a` followed by the key of `b`. */
  lemma NormNameIgnoresSeparators(a: string, sep: string, b: string)
    requires forall i :: 0 <= i < |sep| ==> !IsKeyChar(LowerChar(sep[i]))
    ensures NormName(Some(a + sep + b)) == NormName(Some(a)) + NormName(Some(b))
  {
    var la, ls, lb := Lower(a), Lower(sep), Lower(b);
    LowerAppend(a + sep, b);
    LowerAppend(a, sep);
    assert Lower(a + sep + b) == la + ls + lb;
    StripNonKeyAppend(la + ls, lb);
    StripNonKeyAppend(la, ls);
    StripNonKeyDropsAll(ls);
    assert StripNonKey(la + ls + lb) == StripNonKey(la) + StripNonKey(lb);
    assert NormName(Some(a)) == StripNonKey(la);
    assert NormName(Some(b)) == StripNonKey(lb);
  }

  lemma {:induction false} StripNonKeyDropsAll(s: string)
    requires forall i :: 0 <= i < |s| ==> !IsKeyChar(s[i])
    ensures StripNonKey(s) == []
  {
    if s != [] {
      StripNonKeyDropsAll(s[1..]);
    }
  }
}
