/**
  The collision resolver of `copy_to_destination` (screenshot_sorter_gui.py,
  lines 186-195): keep the file's own name if it is free, otherwise probe
  `base (1)ext`, `base (2)ext`, ... and take the first free one.

  `taken` is the finite set of names already present in the target directory
  (files and directories alike, as `os.path.exists` sees them).
 */
module CollisionResolver {
  import opened Wrappers
  import opened Strings

  /** Some character of `s[..k]` is not a dot. */
  predicate HasNonDotBefore(s: string, k: nat)
    requires k <= |s|
  {
    exists i :: 0 <= i < k && s[i] != '.'
  }

  /**
    `os.path.splitext` of a name without directory separators: the extension
    runs from the last `.` to the end, unless only dots come before that `.`.
   */
  function SplitExt(name: string): (r: (string, string))
    ensures r.0 + r.1 == name
    ensures r.1 != [] ==> r.1[0] == '.' && '.' !in r.1[1..] && HasNonDotBefore(r.0, |r.0|)
    ensures r.1 == [] ==> '.' !in name || forall i :: 0 <= i < |name| && name[i] != '.' ==> '.' !in name[i..]
  {
    match LastIndexOf(name, '.')
    case None => (name, [])
    case Some(k) =>
      if HasNonDotBefore(name, k) then
        assert name[..k] + name[k..] == name;
        (name[..k], name[k..])
      else
        assert forall i :: 0 <= i < |name| && name[i] != '.' ==> i > k;
        assert forall i :: k < i <= |name| ==> '.' !in name[i..] by {
          assert forall i, j :: k < i <= j < |name| ==> name[i..][j - i] == name[j];
        }
        (name, [])
  }

  /** `f"{base} ({counter}){ext}"`. */
  function Numbered(file: string, k: nat): string {
    var (base, ext) := SplitExt(file);
    base + " (" + NatToString(k) + ")" + ext
  }

  /** The name tried at step `k`: the file's own name first, then the numbered ones. */
  function Candidate(file: string, k: nat): string {
    if k == 0 then file else Numbered(file, k)
  }

  /** Different counters give different names. */
  lemma NumberedInjective(file: string, j: nat, k: nat)
    requires Numbered(file, j) == Numbered(file, k)
    ensures j == k
  {
    var (base, ext) := SplitExt(file);
    var dj, dk := NatToString(j), NatToString(k);
    var sj := base + " (" + dj + ")" + ext;
    var sk := base + " (" + dk + ")" + ext;
    assert |dj| == |dk|;
    var lo := |base| + 2;
    assert sj[lo..lo + |dj|] == dj;
    assert sk[lo..lo + |dk|] == dk;
    NatToStringInjective(j, k);
  }

  /** A numbered name always differs from the file's own name (it is longer). */
  lemma NumberedIsNew(file: string, k: nat)
    ensures Numbered(file, k) != file
  {
    var (base, ext) := SplitExt(file);
    assert |Numbered(file, k)| > |base| + |ext| == |file|;
  }

  lemma CandidateInjective(file: string, j: nat, k: nat)
    requires Candidate(file, j) == Candidate(file, k)
    ensures j == k
  {
    if j == 0 && k != 0 {
      NumberedIsNew(file, k);
    } else if j != 0 && k == 0 {
      NumberedIsNew(file, j);
    } else if j != 0 {
      NumberedInjective(file, j, k);
    }
  }

  /** The candidates tried before step `n`. */
  ghost function Probed(file: string, n: nat): set<string> {
    if n == 0 then {} else Probed(file, n - 1) + {Candidate(file, n - 1)}
  }

  /** A candidate from step `n` on has not been tried before step `n`. */
  lemma {:induction false} NotProbedYet(file: string, n: nat, m: nat)
    requires n <= m
    ensures Candidate(file, m) !in Probed(file, n)
  {
    if n > 0 {
      NotProbedYet(file, n - 1, m);
      if Candidate(file, m) == Candidate(file, n - 1) {
        CandidateInjective(file, m, n - 1);
      }
    }
  }

  /** The resolver's contract: `name` is candidate `k`, it is free, and every earlier candidate is taken. */
  ghost predicate FirstFree(taken: set<string>, file: string, k: nat, name: string) {
    && name == Candidate(file, k)
    && name !in taken
    && forall j :: 0 <= j < k ==> Candidate(file, j) in taken
  }

  /** The first free candidate from step `k` on; it exists because `taken` is finite. */
  function ProbeFrom(taken: set<string>, file: string, k: nat): (r: nat)
    requires forall j :: 0 <= j < k ==> Candidate(file, j) in taken
    ensures r >= k && FirstFree(taken, file, r, Candidate(file, r))
    decreases taken - Probed(file, k)
  {
    if Candidate(file, k) !in taken then k
    else
      NotProbedYet(file, k, k);
      ProbeFrom(taken, file, k + 1)
  }

  /** The counter the resolver stops at: 0 when the file's own name is free. */
  function FreeCounter(taken: set<string>, file: string): (k: nat)
    ensures FirstFree(taken, file, k, Candidate(file, k))
    ensures k == 0 <==> file !in taken
  {
    ProbeFrom(taken, file, 0)
  }

  /** The name the resolver returns. */
  function FreeName(taken: set<string>, file: string): (name: string)
    ensures name !in taken
    ensures file !in taken ==> name == file
    ensures file in taken ==> exists k :: k >= 1 && name == Numbered(file, k) && forall j :: 1 <= j < k ==> Numbered(file, j) in taken
  {
    var k := FreeCounter(taken, file);
    assert file in taken ==> k >= 1 && Candidate(file, k) == Numbered(file, k);
    assert forall j :: 1 <= j < k ==> Candidate(file, j) == Numbered(file, j) && Candidate(file, j) in taken;
    Candidate(file, k)
  }

  /** The loop of lines 187-195. */
  method ResolveCollision(taken: set<string>, file: string) returns (name: string, counter: nat)
    ensures FirstFree(taken, file, counter, name)
    ensures name == FreeName(taken, file)
  {
    name, counter := file, 0;
    if name in taken {
      counter := 1;
      name := Numbered(file, counter);
      while name in taken
        invariant counter >= 1 && name == Candidate(file, counter)
        invariant forall j :: 0 <= j < counter ==> Candidate(file, j) in taken
        decreases taken - Probed(file, counter)
      {
        NotProbedYet(file, counter, counter);
        counter := counter + 1;
        name := Numbered(file, counter);
      }
    }
    FirstFreeUnique(taken, file, counter, name, FreeCounter(taken, file), FreeName(taken, file));
  }

  /** At most one candidate satisfies the contract. */
  lemma FirstFreeUnique(taken: set<string>, file: string, k1: nat, n1: string, k2: nat, n2: string)
    requires FirstFree(taken, file, k1, n1) && FirstFree(taken, file, k2, n2)
    ensures k1 == k2 && n1 == n2
  {
  }

  /**
    With the file's own name and `base (1)ext` ... `base (n)ext` all present and
    `base (n+1)ext` free, the resolver returns `base (n+1)ext`.
   */
  lemma ResolveAfterConsecutive(taken: set<string>, file: string, n: nat)
    requires file in taken
    requires forall j :: 1 <= j <= n ==> Numbered(file, j) in taken
    requires Numbered(file, n + 1) !in taken
    ensures FreeName(taken, file) == Numbered(file, n + 1)
  {
    assert forall j :: 0 <= j < n + 1 ==> Candidate(file, j) in taken;
    FirstFreeUnique(taken, file, n + 1, Numbered(file, n + 1), FreeCounter(taken, file), FreeName(taken, file));
  }

  /** Resolving again once the chosen name is taken gives a name clashing with none of them. */
  lemma ResolveAgainIsFresh(taken: set<string>, file: string)
    ensures FreeName(taken + {FreeName(taken, file)}, file) !in taken
    ensures FreeName(taken + {FreeName(taken, file)}, file) != FreeName(taken, file)
  {
  }
}
