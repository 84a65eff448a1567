/** Name lookup in the directory of student-distrib/filesystem.c, with its cached name lengths. */
module Directory {
  import opened Bytes
  import opened Filesystem

  /** Byte `i` of the C string whose characters are `s`. */
  function CharAt(s: seq<byte>, i: nat): (c: byte) {
    if i < |s| then s[i] else NUL
  }

  /** The name a caller asks for: up to the first space or NUL, at most `limit` characters. */
  ghost function Queried(s: seq<byte>, limit: nat): (r: seq<byte>)
    ensures r <= s && |r| <= limit && SPACE !in r && NUL !in r
    ensures |r| < limit && |r| < |s| ==> s[|r|] == SPACE || s[|r|] == NUL
  {
    if limit == 0 || s == [] || s[0] == SPACE || s[0] == NUL then [] else [s[0]] + Queried(s[1..], limit - 1)
  }

  /** The name an entry carries, all 32 bytes if it holds no NUL. */
  ghost function NameOf(img: Image, k: nat): (name: seq<byte>)
    requires LaidOut(img) && k < MAX_ENTRIES
  {
    UpToNul(img.entries[k].name)
  }

  /** Entry `k` is the first one named `query`. */
  ghost predicate FirstNamed(img: Image, query: seq<byte>, k: nat)
    requires LaidOut(img)
  {
    k < 63 && NameOf(img, k) == query && forall j: nat | j < k :: NameOf(img, j) != query
  }

  /** The first entry named `query` from number `from` on; 63 if there is none. */
  ghost function Lookup(img: Image, query: seq<byte>, from: nat): (k: nat)
    requires LaidOut(img) && from <= MAX_ENTRIES
    ensures from <= k <= MAX_ENTRIES
    ensures k < MAX_ENTRIES ==> NameOf(img, k) == query
    ensures forall j | from <= j < k :: NameOf(img, j) != query
    decreases MAX_ENTRIES - from
  {
    if from == MAX_ENTRIES || NameOf(img, from) == query then from else Lookup(img, query, from + 1)
  }

  lemma LookupIsFirst(img: Image, query: seq<byte>, k: nat)
    requires LaidOut(img)
    ensures FirstNamed(img, query, k) <==> k == Lookup(img, query, 0) && k < MAX_ENTRIES
  {
  }

  /** The cached lengths of the entry names. */
  ghost predicate Counted(img: Image, counts: seq<nat>)
    requires LaidOut(img)
  {
    |counts| == MAX_ENTRIES && forall k | 0 <= k < MAX_ENTRIES :: counts[k] == |NameOf(img, k)|
  }

  /** `create_char_count`. */
  method CreateCharCount(img: Image) returns (counts: seq<nat>)
    requires LaidOut(img)
    ensures Counted(img, counts)
  {
    counts := [];
    for k := 0 to MAX_ENTRIES
      invariant |counts| == k
      invariant forall j | 0 <= j < k :: counts[j] == |NameOf(img, j)|
    {
      var name, len := img.entries[k].name, 0;
      while len < NAME_SIZE && name[len] != NUL
        invariant len <= |UpToNul(name)|
      {
        len := len + 1;
      }
      counts := counts + [len];
    }
  }

  function Signed(b: byte): (i: int) {
    if b < 128 then b else b - 256
  }

  /** The C strings agree on their first `m` characters and neither ends there. */
  ghost predicate Agree(s1: seq<byte>, s2: seq<byte>, m: nat) {
    forall i: nat | i < m :: CharAt(s1, i) == CharAt(s2, i) != NUL
  }

  /** The C strings are the same as far as `n` characters tell. */
  ghost predicate SameString(s1: seq<byte>, s2: seq<byte>, n: nat) {
    forall m: nat | m < n && Agree(s1, s2, m) :: CharAt(s1, m) == CharAt(s2, m)
  }

  /** `strncmp` of lib.c: zero for the same string, else the signed difference at the first disagreement. */
  method Strncmp(s1: seq<byte>, s2: seq<byte>, n: nat) returns (r: int)
    ensures r == 0 <==> SameString(s1, s2, n)
    ensures r != 0 ==> exists m: nat | m < n && Agree(s1, s2, m) :: r == Signed(CharAt(s1, m)) - Signed(CharAt(s2, m))
  {
    var i := 0;
    while i < n
      invariant i <= n && Agree(s1, s2, i)
    {
      if CharAt(s1, i) != CharAt(s2, i) || CharAt(s1, i) == NUL {
        return Signed(CharAt(s1, i)) - Signed(CharAt(s2, i));
      }
      i := i + 1;
    }
    return 0;
  }

  /** Between names of equal length, `strncmp` decides equality. */
  lemma AgreementIsEquality(s: seq<byte>, q: seq<byte>, t: seq<byte>, name: seq<byte>)
    requires q <= s && NUL !in q && name <= t && NUL !in name && |q| == |name|
    ensures q == name <==> SameString(s, t, |q|)
  {
    if SameString(s, t, |q|) {
      var i := 0;
      while i < |q|
        invariant i <= |q| && Agree(s, t, i)
      {
        assert CharAt(s, i) == q[i];
        i := i + 1;
      }
      assert forall i: nat | i < |q| :: CharAt(s, i) == q[i] && CharAt(t, i) == name[i];
    }
  }

  /** `read_dentry_by_name`: the structure handed in is filled from the first entry of that name. */
  method ReadDentryByName(img: Image, counts: seq<nat>, fname: seq<byte>, dentry: Dentry)
    returns (r: int, d: Dentry, ghost k: nat)
    requires LaidOut(img) && Counted(img, counts) && |dentry.name| == NAME_SIZE
    ensures r == 0 || r == -1
    ensures r == 0 ==>
              && Queried(fname, NAME_SIZE) != []
              && FirstNamed(img, Queried(fname, NAME_SIZE), k)
              && d == Dentry(NameOf(img, k) + dentry.name[|NameOf(img, k)|..],
                             img.entries[k].fileType, img.entries[k].inode)
    ensures r == -1 ==>
              && d == dentry
              && (Queried(fname, NAME_SIZE) == [] || forall j: nat :: !FirstNamed(img, Queried(fname, NAME_SIZE), j))
  {
    ghost var query := Queried(fname, NAME_SIZE);
    var len := 0;
    while len < NAME_SIZE && CharAt(fname, len) != SPACE && CharAt(fname, len) != NUL
      invariant len <= |query|
    {
      len := len + 1;
    }
    if len == 0 {
      return -1, dentry, 0;
    }
    for i := 0 to MAX_ENTRIES
      invariant forall j: nat | j < i :: NameOf(img, j) != query
    {
      if len == counts[i] {
        var e := img.entries[i];
        var cmp := Strncmp(fname, e.name, counts[i]);
        AgreementIsEquality(fname, query, e.name, NameOf(img, i));
        if cmp == 0 {
          return 0, Dentry(e.name[..counts[i]] + dentry.name[counts[i]..], e.fileType, e.inode), i;
        }
      }
    }
    return -1, dentry, 0;
  }

  /** A directory whose listed names are nonempty, free of spaces and pairwise distinct. */
  ghost predicate Unambiguous(img: Image) {
    && LaidOut(img)
    && img.numEntries <= MAX_ENTRIES
    && (forall k: nat | k < img.numEntries :: NameOf(img, k) != [] && SPACE !in NameOf(img, k))
    && (forall j: nat, k: nat | j < k < img.numEntries :: NameOf(img, j) != NameOf(img, k))
  }

  lemma {:induction false} QueryIsWholeName(name: seq<byte>, limit: nat)
    requires SPACE !in name && NUL !in name && |name| <= limit
    ensures Queried(name, limit) == name
  {
    if name != [] {
      QueryIsWholeName(name[1..], limit - 1);
    }
  }

  /** What is asked for: the characters before the first space or NUL, or the first 32 if there are more. */
  lemma {:induction false} QueryIsFirstWord(w: seq<byte>, rest: seq<byte>, s: seq<byte>, limit: nat)
    requires 32 !in w && 0 !in w && (rest == [] || rest[0] == 32 || rest[0] == 0) && s == w + rest
    ensures Queried(s, limit) == w[..Min(|w|, limit)]
    decreases |w|
  {
    if w == [] {
      assert s == rest;
    } else if limit > 0 {
      var w', n := w[1..], Min(|w|, limit);
      QueryIsFirstWord(w', rest, s[1..], limit - 1);
      assert s[0] == w[0] && w[..n] == [w[0]] + w'[..n - 1];
    }
  }

  /** In such a directory every listed name looks up its own entry. */
  lemma ListedNameLooksUpItself(img: Image, k: nat)
    requires Unambiguous(img) && k < img.numEntries
    ensures var query := Queried(NameOf(img, k), NAME_SIZE);
            query != [] && FirstNamed(img, query, k) && forall j: nat :: FirstNamed(img, query, j) ==> j == k
  {
    QueryIsWholeName(NameOf(img, k), NAME_SIZE);
  }
}
