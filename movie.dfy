/**
 * Movie mode of mandel.c: the frames [0, totalFrames) are split among
 * numProcs child processes with the Split arithmetic, child i being assigned
 * [i * framesPerChild, i * framesPerChild + count).
 *
 * What a child really does is less: its first execl replaces the process
 * with a single-image render of frame `start` (and if execl fails the child
 * exits with status 1), so the loop over its range never reaches a second
 * frame; a child whose range is empty exits 0 without rendering anything.
 */
module Movie {
  import Split
  import FrameNames

  /** Number of frames of a movie: fixed in main, no option changes it. */
  const MovieFrames: nat := 50

  /** The frame range a child is assigned: [start, start + count). */
  datatype Child = Child(start: nat, count: nat)

  /**
   * What a child execs: one single-image render of `frame`. The output file
   * name is a function of the frame number alone.
   */
  datatype FrameJob = FrameJob(frame: nat) {
    function OutName(): string {
      FrameNames.FrameName(frame)
    }
  }

  function ChildOf(totalFrames: nat, numProcs: nat, i: nat): Child
    requires numProcs >= 1
  {
    Child(Split.Start(totalFrames, numProcs, i), Split.Count(totalFrames, numProcs, i))
  }

  /** The ranges of all children, child 0 first. */
  function Children(totalFrames: nat, numProcs: nat): (cs: seq<Child>)
    requires numProcs >= 1
    ensures |cs| == numProcs
  {
    seq(numProcs, i requires 0 <= i < numProcs => ChildOf(totalFrames, numProcs, i))
  }

  lemma ChildrenPrefix(totalFrames: nat, numProcs: nat, i: nat)
    requires numProcs >= 1 && i < numProcs
    ensures Children(totalFrames, numProcs)[..i + 1]
         == Children(totalFrames, numProcs)[..i] + [ChildOf(totalFrames, numProcs, i)]
  {
  }

  /** The frame jobs a child runs as the source is written: at most its first frame. */
  function ChildJobs(c: Child): seq<FrameJob> {
    if c.count > 0 then [FrameJob(c.start)] else []
  }

  /** The frame jobs a child would run if the loop went on after execl: its whole range. */
  function IntendedChildJobs(c: Child): (jobs: seq<FrameJob>)
    ensures |jobs| == c.count
    ensures forall k :: 0 <= k < c.count ==> jobs[k] == FrameJob(c.start + k)
  {
    seq(c.count, k requires 0 <= k < c.count => FrameJob(c.start + k))
  }

  /** Jobs of several children, child 0 first. */
  function AllJobs(cs: seq<Child>, jobsOf: Child -> seq<FrameJob>): seq<FrameJob>
    decreases |cs|
  {
    if cs == [] then [] else AllJobs(cs[..|cs| - 1], jobsOf) + jobsOf(cs[|cs| - 1])
  }

  lemma AllJobsAppend(cs: seq<Child>, c: Child, jobsOf: Child -> seq<FrameJob>)
    ensures AllJobs(cs + [c], jobsOf) == AllJobs(cs, jobsOf) + jobsOf(c)
  {
    assert (cs + [c])[..|cs|] == cs;
  }

  /** The frames a list of jobs produces. */
  function FramesOf(jobs: seq<FrameJob>): set<nat> {
    set job | job in jobs :: job.frame
  }

  /** The frames the children produce as the source is written: the first frame of every non-empty range. */
  function RenderedFrames(cs: seq<Child>): set<nat> {
    set c | c in cs && c.count > 0 :: c.start
  }

  /** Frame f is assigned to child c. */
  predicate InRange(c: Child, f: int) {
    c.start <= f < c.start + c.count
  }

  /** The jobs of the children produce exactly the first frames of the non-empty ranges. */
  lemma {:induction false} AllJobsRendered(cs: seq<Child>)
    ensures FramesOf(AllJobs(cs, ChildJobs)) == RenderedFrames(cs)
    decreases |cs|
  {
    if cs != [] {
      var front, last := cs[..|cs| - 1], cs[|cs| - 1];
      AllJobsRendered(front);
      assert cs == front + [last];
      var jobs := AllJobs(cs, ChildJobs);
      assert jobs == AllJobs(front, ChildJobs) + ChildJobs(last);
      assert FramesOf(jobs) == FramesOf(AllJobs(front, ChildJobs)) + FramesOf(ChildJobs(last));
      assert RenderedFrames(cs) == RenderedFrames(front) + RenderedFrames([last]);
    }
  }

  /**
   * Frame f is assigned to some child exactly when it is one of the frames
   * [0, totalFrames), and then to only one child.
   */
  lemma {:induction false} AssignedPartition(totalFrames: nat, numProcs: nat, f: int)
    requires numProcs >= 1
    ensures 0 <= f < totalFrames <==> exists i :: 0 <= i < numProcs && InRange(Children(totalFrames, numProcs)[i], f)
    ensures forall i, k ::
      0 <= i < numProcs && 0 <= k < numProcs
      && InRange(Children(totalFrames, numProcs)[i], f) && InRange(Children(totalFrames, numProcs)[k], f)
      ==> i == k
  {
    var cs := Children(totalFrames, numProcs);
    assert forall i :: 0 <= i < numProcs ==> (InRange(cs[i], f) <==> Split.Owns(totalFrames, numProcs, i, f));
    Split.ExactlyOnce(totalFrames, numProcs, f);
  }

  /**
   * The frames actually produced: with at least one frame per child, the first
   * frame i * (totalFrames / numProcs) of every child; with more children than
   * frames, frame 0 alone (rendered by the last child), or nothing at all for
   * an empty movie.
   */
  lemma {:induction false} RenderedFramesAre(totalFrames: nat, numProcs: nat)
    requires numProcs >= 1
    ensures RenderedFrames(Children(totalFrames, numProcs)) ==
      if totalFrames / numProcs >= 1 then set i | 0 <= i < numProcs :: i * (totalFrames / numProcs)
      else if totalFrames > 0 then {0}
      else {}
  {
    var cs := Children(totalFrames, numProcs);
    var q := totalFrames / numProcs;
    forall i | 0 <= i < numProcs
      ensures cs[i].start == i * q
      ensures cs[i].count > 0 <==> q >= 1 || (i == numProcs - 1 && totalFrames > 0)
    {
      Split.Sizes(totalFrames, numProcs, i);
    }
    var rendered := RenderedFrames(cs);
    if q >= 1 {
      var firsts := set i | 0 <= i < numProcs :: i * q;
      forall x | x in rendered
        ensures x in firsts
      {
        var c :| c in cs && c.count > 0 && c.start == x;
        var i :| 0 <= i < numProcs && cs[i] == c;
      }
      forall i | 0 <= i < numProcs
        ensures i * q in rendered
      {
        assert cs[i] in cs;
      }
    } else if totalFrames > 0 {
      assert cs[numProcs - 1] in cs;
      forall x | x in rendered
        ensures x == 0
      {
        var c :| c in cs && c.count > 0 && c.start == x;
        var i :| 0 <= i < numProcs && cs[i] == c;
      }
    } else {
      forall c | c in cs
        ensures c.count == 0
      {
        var i :| 0 <= i < numProcs && cs[i] == c;
      }
    }
  }

  /** Two children that both render write different output files. */
  lemma {:induction false} OutputsDistinct(totalFrames: nat, numProcs: nat, i: nat, k: nat)
    requires numProcs >= 1 && i < numProcs && k < numProcs && i != k
    requires Split.Count(totalFrames, numProcs, i) > 0 && Split.Count(totalFrames, numProcs, k) > 0
    ensures FrameNames.FrameName(Split.Start(totalFrames, numProcs, i))
         != FrameNames.FrameName(Split.Start(totalFrames, numProcs, k))
  {
    var si, sk := Split.Start(totalFrames, numProcs, i), Split.Start(totalFrames, numProcs, k);
    FrameNames.FrameNameInjective(si, sk);
    if si == sk {
      assert Split.Owns(totalFrames, numProcs, i, si) && Split.Owns(totalFrames, numProcs, k, si);
      Split.Disjoint(totalFrames, numProcs, i, k, si);
    }
  }

  /**
   * As written, the default movie (50 frames, one process) produces only
   * mandel0.jpg although frames 0 to 49 are assigned to its child.
   */
  lemma DefaultMovieRendersOneFrame()
    ensures forall f :: 0 <= f < MovieFrames ==> InRange(Children(MovieFrames, 1)[0], f)
    ensures AllJobs(Children(MovieFrames, 1), ChildJobs) == [FrameJob(0)]
    ensures FrameJob(0).OutName() == "mandel0.jpg"
  {
    var cs := Children(MovieFrames, 1);
    assert cs == [Child(0, 50)];
    assert cs[..0] == [];
    assert FrameNames.DigitChar(0) == '0';
    assert FrameNames.FrameName(0) == "mandel0.jpg";
  }

  /** Frame f comes from the intended jobs of the children exactly when one of them is assigned f. */
  lemma {:induction false} AllIntendedJobsFrames(cs: seq<Child>, f: int)
    ensures f in FramesOf(AllJobs(cs, IntendedChildJobs)) <==> exists k :: 0 <= k < |cs| && InRange(cs[k], f)
    decreases |cs|
  {
    if cs != [] {
      var front, last := cs[..|cs| - 1], cs[|cs| - 1];
      AllIntendedJobsFrames(front, f);
      var jobs := AllJobs(cs, IntendedChildJobs);
      assert jobs == AllJobs(front, IntendedChildJobs) + IntendedChildJobs(last);
      assert FramesOf(jobs) == FramesOf(AllJobs(front, IntendedChildJobs)) + FramesOf(IntendedChildJobs(last));
      if InRange(last, f) {
        var lastJobs := IntendedChildJobs(last);
        assert lastJobs[f - last.start] in lastJobs;
      }
      assert forall k :: 0 <= k < |front| ==> front[k] == cs[k];
    }
  }

  /**
   * Had the children looped over their whole ranges, every frame of
   * [0, totalFrames) and no other would be produced.
   */
  lemma {:induction false} IntendedRendersEveryFrame(totalFrames: nat, numProcs: nat, f: int)
    requires numProcs >= 1
    ensures f in FramesOf(AllJobs(Children(totalFrames, numProcs), IntendedChildJobs)) <==> 0 <= f < totalFrames
  {
    AssignedPartition(totalFrames, numProcs, f);
    AllIntendedJobsFrames(Children(totalFrames, numProcs), f);
  }

  /**
   * The movie-mode loop of main: computes each child's range, forks it (the
   * outcome of each fork is the parameter forkOk) and records it; the child's
   * work is the jobs it runs. A failed fork makes the parent exit with status 1
   * at once, leaving the children forked so far running; otherwise the parent
   * waits for every child and returns 0, whatever the children's own statuses.
   */
  method MovieMode(totalFrames: nat, numProcs: int, forkOk: seq<bool>)
    returns (exitStatus: int, children: seq<Child>, jobs: seq<FrameJob>)
    requires numProcs >= 1 && |forkOk| == numProcs
    ensures |children| <= numProcs
    ensures forall k :: 0 <= k < |children| ==> forkOk[k]
    ensures |children| < numProcs ==> !forkOk[|children|]
    ensures children == Children(totalFrames, numProcs)[..|children|]
    ensures exitStatus == if |children| == numProcs then 0 else 1
    ensures jobs == AllJobs(children, ChildJobs)
    ensures exitStatus == 0 ==> FramesOf(jobs) == RenderedFrames(Children(totalFrames, numProcs))
  {
    var framesPerChild := totalFrames / numProcs;
    var leftover := totalFrames % numProcs;
    ghost var all := Children(totalFrames, numProcs);
    children, jobs := [], [];
    var i := 0;
    while i < numProcs
      invariant 0 <= i <= numProcs && |children| == i
      invariant forall k :: 0 <= k < i ==> forkOk[k]
      invariant children == all[..i]
      invariant jobs == AllJobs(children, ChildJobs)
    {
      var start := i * framesPerChild;
      var count := framesPerChild;
      if i == numProcs - 1 {
        count := count + leftover;
      }
      if !forkOk[i] {
        exitStatus := 1;
        return;
      }
      var child := Child(start, count);
      assert child == ChildOf(totalFrames, numProcs, i);
      ChildrenPrefix(totalFrames, numProcs, i);
      AllJobsAppend(children, child, ChildJobs);
      jobs := jobs + ChildJobs(child);
      children := children + [child];
      i := i + 1;
    }
    exitStatus := 0;
    assert children == all;
    AllJobsRendered(children);
  }
}
