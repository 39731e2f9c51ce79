/**
 * The sequence and dictionary helpers of `util/__init__.py`:
 * the name search of `find_class_in_module`, `without_key` and
 * `get_prev_data_zero_bounded`.
 */
module Util {
  import opened Wrappers
  import opened PyStr

  // ------------------------------------------------------------------
  // find_class_in_module
  // ------------------------------------------------------------------

  /**
   * The module's namespace (`clslib.__dict__.items()`) in iteration order:
   * each entry pairs a name with the object it is bound to, `None` standing
   * for Python's `None` object.
   */
  type Namespace<T> = seq<(string, Option<T>)>

  /** The lookup found no usable class (the source prints and exits). */
  datatype LookupError = NoMatchingClass(moduleName: string, target: string)

  /** `s.replace("_", "")` */
  function RemoveUnderscores(s: string): (r: string)
    ensures '_' !in r
    ensures forall c :: c != '_' ==> multiset(r)[c] == multiset(s)[c]
  {
    if s == [] then []
    else
      assert s == [s[0]] + s[1..];
      if s[0] == '_' then RemoveUnderscores(s[1..])
      else [s[0]] + RemoveUnderscores(s[1..])
  }

  /** The target as the search compares it: underscores deleted, then lower-cased. */
  function NormalizeTarget(s: string): (r: string)
    ensures '_' !in r
    ensures forall i :: 0 <= i < |r| ==> !IsUpperLetter(r[i])
    ensures |r| == |RemoveUnderscores(s)|
    ensures forall i :: 0 <= i < |r| ==> r[i] == LowerChar(RemoveUnderscores(s)[i])
  {
    LowerHasUnderscoreIff(RemoveUnderscores(s));
    Lower(RemoveUnderscores(s))
  }

  /** Whether a namespace name matches an already normalised target. */
  predicate NameMatches(name: string, key: string)
  {
    Lower(name) == key
  }

  /**
   * Reference definition of the search, read from the end of the namespace:
   * `None` when no name matches, `Some(obj)` with the object bound to the
   * last matching name otherwise.
   */
  function LookupLast<T>(ns: Namespace<T>, key: string): Option<Option<T>>
  {
    if ns == [] then None
    else if NameMatches(ns[|ns| - 1].0, key) then Some(ns[|ns| - 1].1)
    else LookupLast(ns[..|ns| - 1], key)
  }

  /** What the variable `cls` holds once the search has seen the entries. */
  function Found<T>(o: Option<Option<T>>): Option<T>
  {
    match o
    case None => None
    case Some(obj) => obj
  }

  /** Entry `i` is the last entry of `ns` whose name matches `key`. */
  ghost predicate IsLastMatch<T>(ns: Namespace<T>, key: string, i: int)
  {
    0 <= i < |ns| && NameMatches(ns[i].0, key) &&
    forall j :: i < j < |ns| ==> !NameMatches(ns[j].0, key)
  }

  /**
   * The search loop of `find_class_in_module`: every entry whose
   * lower-cased name equals the normalised target overwrites `cls`, so the
   * last one wins; if `cls` is still `None` at the end, the lookup fails.
   */
  method FindClassInModule<T>(targetClsName: string, moduleName: string, ns: Namespace<T>)
    returns (r: Result<T, LookupError>)
    ensures r.Ok? <==> Found(LookupLast(ns, NormalizeTarget(targetClsName))).Some?
    ensures r.Ok? ==> Found(LookupLast(ns, NormalizeTarget(targetClsName))) == Some(r.value)
    ensures r.Err? ==> r.error == NoMatchingClass(moduleName, NormalizeTarget(targetClsName))
  {
    var key := NormalizeTarget(targetClsName);
    var cls: Option<T> := None;
    for i := 0 to |ns|
      invariant cls == Found(LookupLast(ns[..i], key))
    {
      assert ns[..i + 1][..i] == ns[..i];
      if Lower(ns[i].0) == key {
        cls := ns[i].1;
      }
    }
    assert ns[..|ns|] == ns;
    if cls.None? {
      return Err(NoMatchingClass(moduleName, key));
    }
    return Ok(cls.value);
  }

  /**
   * The reference definition finds nothing exactly when no name matches,
   * and otherwise the object of the last matching entry.
   */
  lemma {:induction false} LookupLastIsLastMatch<T>(ns: Namespace<T>, key: string)
    ensures LookupLast(ns, key).None? <==> forall i :: 0 <= i < |ns| ==> !NameMatches(ns[i].0, key)
    ensures LookupLast(ns, key).Some? ==>
      exists i :: IsLastMatch(ns, key, i) && LookupLast(ns, key) == Some(ns[i].1)
  {
    if ns != [] {
      var n := |ns| - 1;
      var init := ns[..n];
      LookupLastIsLastMatch(init, key);
      if NameMatches(ns[n].0, key) {
        assert IsLastMatch(ns, key, n);
      } else {
        assert forall i :: 0 <= i < n ==> ns[i] == init[i];
        if LookupLast(init, key).Some? {
          var i :| IsLastMatch(init, key, i) && LookupLast(init, key) == Some(init[i].1);
          assert IsLastMatch(ns, key, i);
        }
      }
    }
  }

  /** Entries later in the namespace override earlier ones. */
  lemma {:induction false} LookupLastAppend<T>(a: Namespace<T>, b: Namespace<T>, key: string)
    ensures LookupLast(a + b, key) ==
      if LookupLast(b, key).Some? then LookupLast(b, key) else LookupLast(a, key)
  {
    if b == [] {
      assert a + b == a;
    } else {
      var n := |b| - 1;
      assert (a + b)[|a + b| - 1] == b[n];
      assert (a + b)[..|a + b| - 1] == a + b[..n];
      LookupLastAppend(a, b[..n], key);
    }
  }

  /**
   * The target loses its underscores but namespace names do not, so a name
   * containing `_` never matches, whatever the target.
   */
  lemma UnderscoreNameNeverMatches(name: string, targetClsName: string)
    requires '_' in name
    ensures !NameMatches(name, NormalizeTarget(targetClsName))
  {
  }

  /** Inserting an entry whose name contains `_` never changes the search. */
  lemma UnderscoreEntryIgnored<T>(a: Namespace<T>, name: string, obj: Option<T>, b: Namespace<T>,
                                   targetClsName: string)
    requires '_' in name
    ensures LookupLast(a + [(name, obj)] + b, NormalizeTarget(targetClsName)) ==
            LookupLast(a + b, NormalizeTarget(targetClsName))
  {
    var key := NormalizeTarget(targetClsName);
    UnderscoreNameNeverMatches(name, targetClsName);
    LookupLastAppend(a + [(name, obj)], b, key);
    LookupLastAppend(a, [(name, obj)], key);
    LookupLastAppend(a, b, key);
    assert [(name, obj)][..0] == [];
  }

  /** Underscores and letter case in the target do not affect the search key. */
  lemma NormalizeTargetIdempotent(s: string)
    ensures NormalizeTarget(NormalizeTarget(s)) == NormalizeTarget(s)
  {
    var t := NormalizeTarget(s);
    RemoveUnderscoresNoop(t);
    LowerIdempotent(RemoveUnderscores(s));
  }

  lemma {:induction false} RemoveUnderscoresNoop(s: string)
    requires '_' !in s
    ensures RemoveUnderscores(s) == s
  {
    if s != [] {
      assert s == [s[0]] + s[1..];
      RemoveUnderscoresNoop(s[1..]);
    }
  }

  /** Deleting underscores works piecewise, so every other character keeps its place. */
  lemma {:induction false} RemoveUnderscoresAppend(a: string, b: string)
    ensures RemoveUnderscores(a + b) == RemoveUnderscores(a) + RemoveUnderscores(b)
  {
    if a == [] {
      assert a + b == b;
    } else {
      assert (a + b)[0] == a[0] && (a + b)[1..] == a[1..] + b;
      RemoveUnderscoresAppend(a[1..], b);
    }
  }

  /** Upper-casing neither creates nor removes underscores, so it commutes with deleting them. */
  lemma {:induction false} RemoveUnderscoresUpper(s: string)
    ensures RemoveUnderscores(Upper(s)) == Upper(RemoveUnderscores(s))
  {
    if s != [] {
      var u := Upper(s);
      assert u[0] == UpperChar(s[0]) && u[1..] == Upper(s[1..]);
      RemoveUnderscoresUpper(s[1..]);
      if s[0] != '_' {
        assert Upper([s[0]] + RemoveUnderscores(s[1..])) == [UpperChar(s[0])] + Upper(RemoveUnderscores(s[1..]));
      }
    }
  }

  /**
   * The target is matched regardless of its letter case: an upper-cased
   * target gives the same search key.
   */
  lemma NormalizeTargetCaseInsensitive(s: string)
    ensures NormalizeTarget(Upper(s)) == NormalizeTarget(s)
  {
    RemoveUnderscoresUpper(s);
    var t := RemoveUnderscores(s);
    assert forall i :: 0 <= i < |t| ==> LowerChar(UpperChar(t[i])) == LowerChar(t[i]);
  }

  // ------------------------------------------------------------------
  // without_key
  // ------------------------------------------------------------------

  /** A Python `dict`: a mutable map whose identity callers can observe. */
  class Dict<K(==), V> {
    var entries: map<K, V>

    constructor (m: map<K, V>)
      ensures entries == m
    {
      entries := m;
    }

    /** `d.pop(k)`: removes `k` and returns its value; raises `KeyError(k)` if absent. */
    method Pop(k: K) returns (r: Result<V, K>)
      modifies this
      ensures k in old(entries) ==> r == Ok(old(entries)[k]) && entries == old(entries) - {k}
      ensures k !in old(entries) ==> r == Err(k) && entries == old(entries)
    {
      if k in entries {
        r := Ok(entries[k]);
        entries := entries - {k};
      } else {
        r := Err(k);
      }
    }
  }

  /** Outcome of popping keys in order: the map left over, and the key that was missing, if any. */
  datatype Removal<K, V> = Removal(remaining: map<K, V>, missing: Option<K>)

  /** Specification of `without_key`: pop each key in turn, stopping at the first absent one. */
  function PopEach<K, V>(m: map<K, V>, keys: seq<K>): Removal<K, V>
  {
    if keys == [] then Removal(m, None)
    else if keys[0] !in m then Removal(m, Some(keys[0]))
    else PopEach(m - {keys[0]}, keys[1..])
  }

  function Elems<K(==)>(keys: seq<K>): set<K>
  {
    set k | k in keys
  }

  predicate Distinct<K(==)>(keys: seq<K>)
  {
    forall i, j :: 0 <= i < j < |keys| ==> keys[i] != keys[j]
  }

  /**
   * `without_key(d, *keys)`: pops every key from `d` in place and returns
   * the same dict; the first absent key raises `KeyError`, leaving the keys
   * popped before it removed.
   */
  method WithoutKey<K, V>(d: Dict<K, V>, keys: seq<K>) returns (r: Result<Dict<K, V>, K>)
    modifies d
    ensures d.entries == PopEach(old(d.entries), keys).remaining
    ensures PopEach(old(d.entries), keys).missing.None? ==> r == Ok(d)
    ensures PopEach(old(d.entries), keys).missing.Some? ==>
      r == Err(PopEach(old(d.entries), keys).missing.value)
  {
    for i := 0 to |keys|
      invariant PopEach(old(d.entries), keys) == PopEach(d.entries, keys[i..])
    {
      assert keys[i..][1..] == keys[i + 1..];
      var popped := d.Pop(keys[i]);
      if popped.Err? {
        return Err(popped.error);
      }
    }
    return Ok(d);
  }

  /** Popping succeeds exactly when every key is present and no key is listed twice. */
  lemma {:induction false} PopEachSucceedsIff<K, V>(m: map<K, V>, keys: seq<K>)
    ensures PopEach(m, keys).missing.None? <==>
      (forall i :: 0 <= i < |keys| ==> keys[i] in m) && Distinct(keys)
  {
    if keys != [] {
      var t := keys[1..];
      PopEachSucceedsIff(m - {keys[0]}, t);
      assert forall i :: 1 <= i < |keys| ==> keys[i] == t[i - 1];
      if keys[0] in m && PopEach(m, keys).missing.None? {
        assert forall i :: 1 <= i < |keys| ==> keys[i] in m - {keys[0]};
      }
    }
  }

  /** On success no listed key remains and every other key keeps its value. */
  lemma {:induction false} PopEachRemovesAll<K, V>(m: map<K, V>, keys: seq<K>)
    ensures PopEach(m, keys).missing.None? ==> PopEach(m, keys).remaining == m - Elems(keys)
  {
    if keys != [] && keys[0] in m {
      assert Elems(keys) == {keys[0]} + Elems(keys[1..]);
      PopEachRemovesAll(m - {keys[0]}, keys[1..]);
    }
  }

  /**
   * On success no listed key remains and every other key keeps its value.
   * On failure at position `j` the keys before `j` were all present and
   * distinct (so `j` is the first pop that fails), they stay removed, the
   * key at `j` is absent from what is left, and the rest of the map is
   * untouched.
   */
  lemma {:induction false} PopEachResult<K, V>(m: map<K, V>, keys: seq<K>)
    ensures PopEach(m, keys).missing.None? ==> PopEach(m, keys).remaining == m - Elems(keys)
    ensures PopEach(m, keys).missing.Some? ==>
      exists j :: 0 <= j < |keys| && keys[j] == PopEach(m, keys).missing.value &&
        (forall i :: 0 <= i < j ==> keys[i] in m) && Distinct(keys[..j]) &&
        PopEach(m, keys).remaining == m - Elems(keys[..j]) &&
        keys[j] !in PopEach(m, keys).remaining
  {
    PopEachRemovesAll(m, keys);
    if keys != [] && PopEach(m, keys).missing.Some? {
      var k, t := keys[0], keys[1..];
      if k !in m {
        assert keys[..0] == [] && Elems(keys[..0]) == {};
      } else {
        PopEachResult(m - {k}, t);
        var j :| 0 <= j < |t| && t[j] == PopEach(m, keys).missing.value &&
          (forall i :: 0 <= i < j ==> t[i] in m - {k}) && Distinct(t[..j]) &&
          PopEach(m - {k}, t).remaining == (m - {k}) - Elems(t[..j]) &&
          t[j] !in PopEach(m - {k}, t).remaining;
        FirstFailureShifts(m, keys, j);
      }
    }
  }

  /** Prepending a present key that is not among the next `j` keys moves a failure at `j` to `j + 1`. */
  lemma FirstFailureShifts<K, V>(m: map<K, V>, keys: seq<K>, j: int)
    requires 0 <= j < |keys| - 1 && keys[0] in m
    requires forall i :: 0 <= i < j ==> keys[1..][i] in m - {keys[0]}
    requires Distinct(keys[1..][..j])
    ensures forall i :: 0 <= i < j + 1 ==> keys[i] in m
    ensures Distinct(keys[..j + 1])
    ensures Elems(keys[..j + 1]) == {keys[0]} + Elems(keys[1..][..j])
    ensures keys[j + 1] == keys[1..][j]
  {
    var k, t := keys[0], keys[1..];
    assert keys[..j + 1] == [k] + t[..j];
    forall i | 0 <= i < j ensures keys[i + 1] == t[i] && keys[i + 1] != k {
      assert t[i] in m - {k};
    }
  }

  /** A key listed twice always makes `without_key` fail. */
  lemma RepeatedKeyFails<K, V>(m: map<K, V>, keys: seq<K>, i: int, j: int)
    requires 0 <= i < j < |keys| && keys[i] == keys[j]
    ensures PopEach(m, keys).missing.Some?
  {
    PopEachSucceedsIff(m, keys);
  }

  // ------------------------------------------------------------------
  // get_prev_data_zero_bounded
  // ------------------------------------------------------------------

  /** Raised by `data[0]` on an empty list. */
  datatype WindowError = IndexError

  function Max(a: int, b: int): int { if a < b then b else a }

  /** Where Python puts a slice bound `i` in a sequence of length `n`. */
  function SliceBound(i: int, n: nat): (r: nat)
    ensures r <= n
    ensures 0 <= i <= n ==> r == i
  {
    if i < 0 then (if i + n < 0 then 0 else i + n)
    else if i > n then n
    else i
  }

  /** Python's `s[lo:hi]`. */
  function PySlice<T>(s: seq<T>, lo: int, hi: int): (r: seq<T>)
    ensures 0 <= lo <= hi <= |s| ==> r == s[lo..hi]
    ensures 0 <= hi <= lo ==> r == []
  {
    var a, b := SliceBound(lo, |s|), SliceBound(hi, |s|);
    if a < b then s[a..b] else []
  }

  /** `[x for _ in range(n)]` */
  function Repeat<T>(x: T, n: int): (r: seq<T>)
    ensures |r| == Max(0, n)
    ensures forall i :: 0 <= i < |r| ==> r[i] == x
  {
    if n <= 0 then [] else [x] + Repeat(x, n - 1)
  }

  /**
   * `get_prev_data_zero_bounded(data, end_idx, num_frames)`: the
   * `num_frames` items ending just before `end_idx`, left-padded with copies
   * of `data[0]` when the window starts before the sequence does.
   */
  function GetPrevDataZeroBounded<T>(data: seq<T>, endIdx: int, numFrames: int): (r: Result<seq<T>, WindowError>)
    ensures r.Err? <==> endIdx - numFrames < 0 && |data| == 0
    ensures ValidWindow(data, endIdx, numFrames) ==> r.Ok? && |r.value| == numFrames
  {
    var startIdx := endIdx - numFrames;
    var prev := PySlice(data, Max(0, startIdx), endIdx);
    if startIdx < 0 then
      if |data| == 0 then Err(IndexError)
      else Ok(Repeat(data[0], -startIdx) + prev)
    else Ok(prev)
  }

  /** The arguments for which the window is meant to be taken. */
  predicate ValidWindow<T>(data: seq<T>, endIdx: int, numFrames: int)
  {
    0 <= endIdx <= |data| && 0 <= numFrames && (endIdx - numFrames < 0 ==> |data| > 0)
  }

  /**
   * Reference definition: frame `i` of the window is frame
   * `end_idx - num_frames + i` of `data`, clamped at frame 0; the window
   * always has exactly `num_frames` frames.
   */
  lemma WindowIsClampedFrames<T>(data: seq<T>, endIdx: int, numFrames: int)
    requires ValidWindow(data, endIdx, numFrames)
    ensures GetPrevDataZeroBounded(data, endIdx, numFrames).Ok?
    ensures |GetPrevDataZeroBounded(data, endIdx, numFrames).value| == numFrames
    ensures forall i :: 0 <= i < numFrames ==>
      GetPrevDataZeroBounded(data, endIdx, numFrames).value[i] == data[Max(0, endIdx - numFrames + i)]
  {
  }

  /** With room enough before `end_idx` the window is a plain slice and nothing is prepended. */
  lemma WindowWithoutPadding<T>(data: seq<T>, endIdx: int, numFrames: int)
    requires 0 <= numFrames <= endIdx <= |data|
    ensures GetPrevDataZeroBounded(data, endIdx, numFrames) == Ok(data[endIdx - numFrames..endIdx])
  {
  }

  /**
   * When the window starts before the sequence, its first `-start_idx`
   * frames are copies of `data[0]` and the rest is `data[0:end_idx]`.
   */
  lemma WindowWithPadding<T>(data: seq<T>, endIdx: int, numFrames: int)
    requires 0 <= endIdx <= |data| && endIdx < numFrames && |data| > 0
    ensures GetPrevDataZeroBounded(data, endIdx, numFrames).Ok?
    ensures var w := GetPrevDataZeroBounded(data, endIdx, numFrames).value;
      var pad := numFrames - endIdx;
      |w| == numFrames &&
      (forall i :: 0 <= i < pad ==> w[i] == data[0]) &&
      w[pad..] == data[..endIdx]
  {
  }

  /** Asking for no frames yields the empty window, for every non-negative `end_idx`. */
  lemma WindowOfZeroFrames<T>(data: seq<T>, endIdx: int)
    requires 0 <= endIdx
    ensures GetPrevDataZeroBounded(data, endIdx, 0) == Ok([])
  {
  }

  /**
   * The window ends with the frame just before `end_idx`, and every frame
   * of it is a frame of `data`.
   */
  lemma WindowEndsAtEndIdx<T>(data: seq<T>, endIdx: int, numFrames: int)
    requires ValidWindow(data, endIdx, numFrames) && 0 < endIdx && 0 < numFrames
    ensures var w := GetPrevDataZeroBounded(data, endIdx, numFrames).value;
      w[|w| - 1] == data[endIdx - 1] && forall x :: x in w ==> x in data
  {
  }

  /**
   * A negative `num_frames` raises nothing: for `0 <= end_idx <= len(data)`
   * the slice `data[start_idx:end_idx]` is empty because it starts after it ends.
   */
  lemma WindowOfNegativeFrames<T>(data: seq<T>, endIdx: int, numFrames: int)
    requires 0 <= endIdx <= |data| && numFrames < 0
    ensures GetPrevDataZeroBounded(data, endIdx, numFrames) == Ok([])
  {
  }

  /** The worked cases: a plain slice, a padded window, a window of padding around one frame. */
  lemma WindowExamples()
    ensures GetPrevDataZeroBounded([5, 6, 7, 8], 4, 2) == Ok([7, 8])
    ensures GetPrevDataZeroBounded([5, 6, 7, 8], 2, 5) == Ok([5, 5, 5, 5, 6])
    ensures GetPrevDataZeroBounded([9], 1, 3) == Ok([9, 9, 9])
  {
    WindowWithoutPadding([5, 6, 7, 8], 4, 2);
    assert [5, 6, 7, 8][2..4] == [7, 8];
    WindowIsClampedFrames([5, 6, 7, 8], 2, 5);
    var w := GetPrevDataZeroBounded([5, 6, 7, 8], 2, 5).value;
    assert w[0] == w[1] == w[2] == w[3] == 5 && w[4] == 6;
    assert w == [5, 5, 5, 5, 6];
    WindowIsClampedFrames([9], 1, 3);
    var v := GetPrevDataZeroBounded([9], 1, 3).value;
    assert v[0] == v[1] == v[2] == 9;
    assert v == [9, 9, 9];
  }
}
