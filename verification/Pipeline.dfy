/** The pipe, fork and close loop of the pipeline shell, over descriptor tables. */
module Pipeline {

  /** What an open descriptor refers to: one end of a pipe, or anything else. */
  datatype End = Other(id: int) | ReadEnd(pipe: nat) | WriteEnd(pipe: nat)

  type Fds = map<int, End>

  /** One stage of the pipeline: the descriptor table its process has at execvp, unless fork failed. */
  datatype Stage = NotForked | Child(fds: Fds)

  const STDIN := 0
  const STDOUT := 1

  // ----- what the children hold

  /** In a pipeline of `n` stages whose pipes are numbered from `base`, stage `i` reads and writes these. */
  function Input(fds0: Fds, base: nat, i: nat): End
    requires STDIN in fds0
  {
    if i == 0 then fds0[STDIN] else ReadEnd(base + i - 1)
  }

  function Output(fds0: Fds, base: nat, n: nat, i: nat): End
    requires STDOUT in fds0
  {
    if i + 1 >= n then fds0[STDOUT] else WriteEnd(base + i)
  }

  /** The table of child `i`: the shell's own, with both standard streams redirected and, unless it
      is the last stage, one more descriptor for the read end of the pipe it writes to. */
  ghost predicate ChildHolds(fds: Fds, fds0: Fds, base: nat, n: nat, i: nat)
    requires STDIN in fds0 && STDOUT in fds0
  {
    var redirected := fds0[STDIN := Input(fds0, base, i)][STDOUT := Output(fds0, base, n, i)];
    if i + 1 >= n then fds == redirected
    else exists leak :: leak !in fds0 && fds == redirected[leak := ReadEnd(base + i)]
  }

  /** The stages forked by the first `k` rounds of the loop. */
  ghost predicate StagesOk(stages: seq<Stage>, fds0: Fds, base: nat, n: nat, forks: seq<bool>, k: nat)
    requires STDIN in fds0 && STDOUT in fds0 && k <= |forks|
  {
    && |stages| == k
    && forall i :: 0 <= i < k ==>
         if forks[i] then stages[i].Child? && ChildHolds(stages[i].fds, fds0, base, n, i) else stages[i].NotForked?
  }

  /** No descriptor of the table refers to a pipe numbered `base` or later. */
  ghost predicate OlderPipes(fds: Fds, base: nat) {
    forall fd :: fd in fds ==> match fds[fd]
                               case Other(_) => true
                               case ReadEnd(p) => p < base
                               case WriteEnd(p) => p < base
  }

  lemma {:induction false} FreeDescriptor(used: set<int>) returns (fd: int)
    ensures fd >= 0 && forall u :: u in used ==> u < fd
    decreases used
  {
    if u :| u in used {
      fd := FreeDescriptor(used - {u});
      if fd <= u {
        fd := u + 1;
      }
      assert forall v :: v in used ==> v == u || v in used - {u};
    } else {
      fd := 0;
    }
  }

  predicate IsUnused(fds: Fds, fd: int) {
    fd >= 0 && fd !in fds
  }

  class Shell {
    var fds: Fds          // the shell's descriptor table
    var pipes: nat        // how many pipes were ever created
    var stages: seq<Stage>
    ghost var peak: nat   // the most descriptors the shell had open at once

    /** Any descriptor that is not in use. */
    method Unused() returns (fd: int)
      ensures IsUnused(fds, fd)
    {
      ghost var free := FreeDescriptor(fds.Keys);
      assert IsUnused(fds, free);
      fd :| IsUnused(fds, fd);
    }

    /** pipe(2): the kernel picks two unused descriptors. */
    method Pipe() returns (r: int, w: int)
      modifies this
      ensures r !in old(fds) && w !in old(fds) && r != w && r >= 0 && w >= 0
      ensures fds == old(fds)[r := ReadEnd(old(pipes))][w := WriteEnd(old(pipes))]
      ensures pipes == old(pipes) + 1 && stages == old(stages)
      ensures peak == if old(peak) <= |old(fds)| + 2 then |old(fds)| + 2 else old(peak)
    {
      r := Unused();
      fds := fds[r := ReadEnd(pipes)];
      w := Unused();
      fds := fds[w := WriteEnd(pipes)];
      pipes := pipes + 1;
      if peak <= |fds| {
        peak := |fds|;
      }
    }

    method Close(fd: int)
      modifies this`fds
      ensures fds == old(fds) - {fd}
    {
      fds := fds - {fd};
    }

    /** `execute_command`: the child starts from a copy of the shell's table. */
    method ExecuteCommand(inputFd: int, outputFd: int, forkOk: bool)
      requires inputFd in fds && outputFd in fds && STDIN in fds && STDOUT in fds
      requires inputFd != outputFd && inputFd != STDOUT && outputFd != STDIN
      modifies this`stages
      ensures !forkOk ==> stages == old(stages) + [NotForked]
      ensures forkOk ==>
                stages == old(stages) + [Child((fds - ({inputFd, outputFd} - {STDIN, STDOUT}))
                                               [STDIN := fds[inputFd]][STDOUT := fds[outputFd]])]
    {
      if forkOk {
        var child := fds;
        if inputFd != STDIN {
          child := child[STDIN := child[inputFd]];
          child := child - {inputFd};
        }
        if outputFd != STDOUT {
          child := child[STDOUT := child[outputFd]];
          child := child - {outputFd};
        }
        stages := stages + [Child(child)];
        assert child == (fds - ({inputFd, outputFd} - {STDIN, STDOUT}))[STDIN := fds[inputFd]][STDOUT := fds[outputFd]];
      } else {
        stages := stages + [NotForked];
      }
    }

    /** The loop of `main` over the `n` commands of a line; `forks[i]` says whether fork succeeds in round `i`. */
    method RunPipeline(n: nat, forks: seq<bool>)
      requires STDIN in fds && STDOUT in fds && OlderPipes(fds, pipes)
      requires |forks| == n && stages == [] && peak == |fds|
      modifies this
      ensures fds == old(fds) && StagesOk(stages, old(fds), old(pipes), n, forks, n)
      ensures peak == |old(fds)| + (if n <= 1 then 0 else if n == 2 then 2 else 3)
      ensures pipes == old(pipes) + (if n == 0 then 0 else n - 1)
    {
      ghost var fds0, base := fds, pipes;
      var prevRead, prevWrite := -1, -1;
      var nextRead, nextWrite := -1, -1;
      for i := 0 to n
        invariant StagesOk(stages, fds0, base, n, forks, i)
        invariant pipes == base + (if i == n && n > 0 then n - 1 else i)
        invariant prevWrite == -1
        invariant i == 0 ==> prevRead == -1
        invariant 0 < i < n ==> prevRead != -1
        invariant prevRead != -1 ==> prevRead >= 0 && prevRead !in fds0
        invariant fds == if prevRead == -1 then fds0 else fds0[prevRead := ReadEnd(base + i - 1)]
        invariant peak == |fds0| + (if i == 0 || n == 1 then 0 else if i == 1 || n == 2 then 2 else 3)
      {
        ghost var before := fds;
        if i < n - 1 {
          nextRead, nextWrite := Pipe();
        }
        var input := if i == 0 then STDIN else prevRead;
        var output := if i == n - 1 then STDOUT else nextWrite;
        ghost var sofar := stages;
        ExecuteCommand(input, output, forks[i]);
        if forks[i] {
          ChildTable(fds0, before, fds, base, n, i, prevRead, nextRead, nextWrite, stages[i].fds);
        }
        if prevRead != -1 {
          Close(prevRead);
        }
        assert prevWrite == -1;  // so the loop's test for an open write end of the last pipe always fails
        if i < n - 1 {
          Close(nextWrite);
          prevRead, prevWrite := nextRead, -1;
        } else {
          prevRead, prevWrite := -1, -1;
        }
      }
      if prevRead != -1 {
        Close(prevRead);
      }
    }
  }

  /** What `ExecuteCommand` hands to child `i` is what `ChildHolds` asks for. */
  lemma ChildTable(fds0: Fds, before: Fds, fds: Fds, base: nat, n: nat, i: nat,
                   prevRead: int, nextRead: int, nextWrite: int, child: Fds)
    requires STDIN in fds0 && STDOUT in fds0 && i < n
    requires i > 0 ==> prevRead !in fds0
    requires before == if i == 0 then fds0 else fds0[prevRead := ReadEnd(base + i - 1)]
    requires i < n - 1 ==> nextRead !in before && nextWrite !in before && nextRead != nextWrite
    requires fds == if i < n - 1 then before[nextRead := ReadEnd(base + i)][nextWrite := WriteEnd(base + i)] else before
    requires var inputFd, outputFd := if i == 0 then STDIN else prevRead, if i == n - 1 then STDOUT else nextWrite;
             child == (fds - ({inputFd, outputFd} - {STDIN, STDOUT}))[STDIN := fds[inputFd]][STDOUT := fds[outputFd]]
    ensures ChildHolds(child, fds0, base, n, i)
  {
    var redirected := fds0[STDIN := Input(fds0, base, i)][STDOUT := Output(fds0, base, n, i)];
    if i == n - 1 {
      assert child == redirected;
    } else {
      assert child == redirected[nextRead := ReadEnd(base + i)];
    }
  }

  // ----- who holds which end when the loop is done

  ghost predicate Holds(s: Stage, fd: int, e: End) {
    s.Child? && fd in s.fds && s.fds[fd] == e
  }

  /** Stage `s` holds `e` under some descriptor other than its standard input. */
  ghost predicate HoldsSpare(s: Stage, e: End) {
    s.Child? && exists fd :: fd in s.fds && fd != STDIN && s.fds[fd] == e
  }

  ghost predicate HoldsAny(s: Stage, e: End) {
    Holds(s, STDIN, e) || HoldsSpare(s, e)
  }

  /** The write end of pipe `p` is held by child `p` alone, and only as its standard output. */
  lemma OnlyWriter(stages: seq<Stage>, fds0: Fds, base: nat, forks: seq<bool>, p: nat, k: nat, fd: int)
    requires STDIN in fds0 && STDOUT in fds0 && OlderPipes(fds0, base)
    requires StagesOk(stages, fds0, base, |forks|, forks, |forks|)
    requires p + 1 < |forks| && k < |forks|
    ensures Holds(stages[k], fd, WriteEnd(base + p)) <==> k == p && fd == STDOUT && forks[p]
  {
    assert stages[k].Child? ==> ChildHolds(stages[k].fds, fds0, base, |forks|, k);
  }

  /** The read end of pipe `p` is the standard input of child `p + 1`; besides it, only the
      writing child `p` holds a copy, which it inherited and never closes. */
  lemma Readers(stages: seq<Stage>, fds0: Fds, base: nat, forks: seq<bool>, p: nat, k: nat)
    requires STDIN in fds0 && STDOUT in fds0 && OlderPipes(fds0, base)
    requires StagesOk(stages, fds0, base, |forks|, forks, |forks|)
    requires p + 1 < |forks| && k < |forks|
    ensures Holds(stages[k], STDIN, ReadEnd(base + p)) <==> k == p + 1 && forks[k]
    ensures HoldsSpare(stages[k], ReadEnd(base + p)) <==> k == p && forks[k]
  {
    if stages[k].Child? {
      assert ChildHolds(stages[k].fds, fds0, base, |forks|, k);
      if k == p {
        var leak :| leak !in fds0 &&
          stages[k].fds ==
          fds0[STDIN := Input(fds0, base, k)][STDOUT := Output(fds0, base, |forks|, k)][leak := ReadEnd(base + k)];
        assert Holds(stages[k], leak, ReadEnd(base + p));
      }
    }
  }

  /** The first child reads what the shell reads, the last one writes where the shell writes, and every
      child has all other descriptors of the shell as they were. */
  lemma EndsOfPipeline(stages: seq<Stage>, fds0: Fds, base: nat, forks: seq<bool>, k: nat, fd: int)
    requires STDIN in fds0 && STDOUT in fds0
    requires StagesOk(stages, fds0, base, |forks|, forks, |forks|) && k < |forks| && forks[k]
    ensures k == 0 ==> Holds(stages[k], 0, fds0[0])
    ensures k == |forks| - 1 ==> Holds(stages[k], 1, fds0[1])
    ensures fd in fds0 && fd != 0 && fd != 1 ==> Holds(stages[k], fd, fds0[fd])
  {
    assert ChildHolds(stages[k].fds, fds0, base, |forks|, k);
  }

  /** Some process among `running` holds `e` (the shell itself holds no pipe when the loop is done). */
  ghost predicate Open(stages: seq<Stage>, running: set<nat>, e: End) {
    exists k :: k in running && k < |stages| && HoldsAny(stages[k], e)
  }

  /** A stage reads end-of-file from its predecessor exactly when that one is gone: no stray
      write end keeps the pipe open, whatever the other stages do. */
  lemma EofWhenWriterGone(stages: seq<Stage>, fds0: Fds, base: nat, forks: seq<bool>, running: set<nat>, p: nat)
    requires STDIN in fds0 && STDOUT in fds0 && OlderPipes(fds0, base)
    requires StagesOk(stages, fds0, base, |forks|, forks, |forks|)
    requires p + 1 < |forks| && forall k :: k in running ==> k < |forks| && forks[k]
    ensures Open(stages, running, WriteEnd(base + p)) <==> p in running
  {
    forall k | k in running && HoldsAny(stages[k], WriteEnd(base + p)) ensures k == p {
      OnlyWriter(stages, fds0, base, forks, p, k, STDIN);
      if HoldsSpare(stages[k], WriteEnd(base + p)) {
        var fd :| fd in stages[k].fds && stages[k].fds[fd] == WriteEnd(base + p);
        OnlyWriter(stages, fds0, base, forks, p, k, fd);
      }
    }
    if p in running {
      OnlyWriter(stages, fds0, base, forks, p, p, STDOUT);
      assert HoldsSpare(stages[p], WriteEnd(base + p));
    }
  }

  /** A running stage never finds its output pipe without readers: it holds a read end itself.
      So a stage whose successor has exited blocks on a full pipe instead of failing. */
  lemma NeverBrokenPipe(stages: seq<Stage>, fds0: Fds, base: nat, forks: seq<bool>, running: set<nat>, p: nat)
    requires STDIN in fds0 && STDOUT in fds0 && OlderPipes(fds0, base)
    requires StagesOk(stages, fds0, base, |forks|, forks, |forks|)
    requires p + 1 < |forks| && p in running && forall k :: k in running ==> k < |forks| && forks[k]
    ensures Open(stages, running, ReadEnd(base + p))
  {
    Readers(stages, fds0, base, forks, p, p);
    assert HoldsAny(stages[p], ReadEnd(base + p));
  }
}
