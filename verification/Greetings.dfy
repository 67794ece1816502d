/**
 What a client can tell from two `hello` events of one project, over every run of publishers and readers.
 */
module Greetings {
  import opened Wrappers
  import opened Realtime
  import opened RealtimeRuns
  import opened RealtimeReplay
  import ProjectStream

  lemma {:induction false} RunConcat(s: Sys, a: seq<Step>, b: seq<Step>)
    requires Legal(s, a + b)
    ensures Legal(s, a) && Legal(After(s, a), b) && After(s, a + b) == After(After(s, a), b)
    decreases |a|
  {
    if a == [] {
      assert a + b == b;
    } else {
      assert (a + b)[1..] == a[1..] + b;
      RunConcat(Apply(s, a[0]), a[1..], b);
    }
  }

  /** The generation counts the losses. */
  lemma {:induction false} GenerationStays(s: Sys, steps: seq<Step>)
    requires Legal(s, steps)
    ensures s.gen <= After(s, steps).gen
    ensures s.gen == After(s, steps).gen <==> StepLose !in steps
    decreases |steps|
  {
    if steps != [] {
      GenerationStays(Apply(s, steps[0]), steps[1..]);
      assert steps == [steps[0]] + steps[1..];
    }
  }

  lemma {:induction false} LogGrows(s: Sys, steps: seq<Step>)
    requires Legal(s, steps)
    ensures s.log <= After(s, steps).log
    decreases |steps|
  {
    if steps != [] {
      LogGrows(Apply(s, steps[0]), steps[1..]);
    }
  }

  /** The greeting of a reader whose resume was the run's last step. */
  ghost function Greeted(s: Sys, r: ReaderId, slug: string): ProjectStream.Greeting
    requires r in s.resumed
  {
    ProjectStream.HelloPayload(slug, ProjectStream.Redis, s.resumed[r].point)
  }

  lemma {:induction false} LastStep(before: seq<Step>, step: Step)
    requires Legal(Init, before + [step])
    ensures Legal(Init, before) && Enabled(After(Init, before), step)
    ensures After(Init, before + [step]) == Apply(After(Init, before), step)
  {
    RunConcat(Init, before, [step]);
    assert [step][1..] == [];
  }

  /** A resume as the last step: what it read is logged last, in the generation of the moment. */
  lemma {:induction false} ResumeIsLogged(before: seq<Step>, step: Step)
    requires step.StepResume? && Legal(Init, before + [step])
    ensures var s := After(Init, before + [step]);
            && step.r in s.resumed && s.log != []
            && s.log[|s.log| - 1] == s.resumed[step.r] && s.resumed[step.r].gen == s.gen
  {
    LastStep(before, step);
  }

  /** Whether a loss lies between two reads shows in their generations. */
  lemma {:induction false} GenerationsBetween(one: seq<Step>, middle: seq<Step>, second: Step)
    requires second.StepResume? && Legal(Init, one + middle + [second])
    requires Legal(Init, one)
    ensures var s, t := After(Init, one), After(Init, one + middle + [second]);
            && second.r in t.resumed && t.log != [] && t.log[|t.log| - 1] == t.resumed[second.r]
            && |s.log| < |t.log| && s.log <= t.log
            && (s.gen == t.resumed[second.r].gen <==> StepLose !in middle)
  {
    var two := one + middle;
    RunConcat(Init, two, [second]);
    RunConcat(Init, one, middle);
    ResumeIsLogged(two, second);
    LastStep(two, second);
    GenerationStays(After(Init, one), middle);
    LogGrows(After(Init, one), middle);
  }

  lemma {:induction false} LoggedEpoch(steps: seq<Step>, i: nat)
    requires Legal(Init, steps) && i < |After(Init, steps).log|
    ensures After(Init, steps).log[i].point.epoch.Some?
  {
    RunKeepsInv(Init, steps);
    assert ReadOk(After(Init, steps).log[i]);
  }

  /**
   Two greetings of one project carry the same epoch exactly when no loss lies between their reads, and
   then the sequence number has not gone back. Whoever the readers are, and whatever else happens.
   */
  lemma {:induction false} GreetingsAgreeExactly(before: seq<Step>, first: Step, middle: seq<Step>, second: Step,
                                                 slug: string)
    requires first.StepResume? && second.StepResume?
    requires Legal(Init, (before + [first]) + middle + [second])
    ensures Legal(Init, before + [first])
    ensures var s, t := After(Init, before + [first]), After(Init, (before + [first]) + middle + [second]);
            && first.r in s.resumed && second.r in t.resumed
            && var g, h := Greeted(s, first.r, slug), Greeted(t, second.r, slug);
               && g.epoch.Some? && g.seqNo.Some? && h.seqNo.Some?
               && (g.epoch == h.epoch <==> StepLose !in middle)
               && (g.epoch == h.epoch ==> g.seqNo.value <= h.seqNo.value)
  {
    var one := before + [first];
    var all := one + middle + [second];
    RunConcat(Init, one + middle, [second]);
    RunConcat(Init, one, middle);
    ResumeIsLogged(before, first);
    GenerationsBetween(one, middle, second);
    var i, j := |After(Init, one).log| - 1, |After(Init, all).log| - 1;
    LoggedEpoch(all, i);
    EpochNamesTheSequence(all, i, j);
  }

  /** A loss does happen, and shows: one reader before it and one after it are greeted with two epochs. */
  lemma LossShows()
    ensures exists run, slug :: TwoEpochs(run, slug)
  {
    var r1 := [StepSubscribe(0)];
    assert [] + r1 == r1;
    Extend(Init, [], StepSubscribe(0));
    var r2 := r1 + [StepResume(0, None, 0)];
    Extend(Init, r1, StepResume(0, None, 0));
    var r3 := r2 + [StepLose];
    Extend(Init, r2, StepLose);
    var r4 := r3 + [StepSubscribe(1)];
    Extend(Init, r3, StepSubscribe(1));
    var run := r4 + [StepResume(1, None, 1)];
    Extend(Init, r4, StepResume(1, None, 1));
    assert TwoEpochs(run, "");
  }

  ghost predicate TwoEpochs(run: seq<Step>, slug: string) {
    && Legal(Init, run) && StepLose in run
    && 0 in After(Init, run).resumed && 1 in After(Init, run).resumed
    && Greeted(After(Init, run), 0, slug).epoch == Some(0) && Greeted(After(Init, run), 1, slug).epoch == Some(1)
  }
}
