/** Claiming a draft: src/sessionorc/agent_common.py's draft_folder and claim_draft, by any number of claimants at
    once. A claimant looks for the claim, writes its own whole under a temporary name, links that name into place,
    and removes it; each of these is one step, writing is many, and any claimant may stop for good at any point.
    Names point to files, as a directory's do: the claim and the temporary name are one file once linked. */
module DraftClaim {
  import opened Common

  /** Each claimant's temporary name and the claim it writes. */
  datatype Config = Config(tmp: seq<string>, text: seq<string>) {
    ghost predicate Valid() {
      |tmp| == |text|
    }

    /** The process id and the clock give every claimant a name of its own. */
    ghost predicate NamesDiffer() {
      forall c, d | 0 <= c < d < |tmp| :: tmp[c] != tmp[d]
    }
  }

  datatype Name = Claimed | Temp(name: string)

  datatype Phase = Idle | Checked | Writing | Linked | Beaten | Failed | Won | Refused | Errored

  datatype Claimant = Claimant(phase: Phase, file: nat, stopped: bool)

  /** The folder's names, the files' contents, and where every claimant is. */
  datatype State = State(names: map<Name, nat>, content: map<nat, string>, next: nat, who: seq<Claimant>)

  ghost predicate Init(cfg: Config, s: State) {
    && cfg.Valid() && s.names == map[] && s.content == map[] && s.next == 0
    && |s.who| == |cfg.tmp| && forall c | 0 <= c < |s.who| :: s.who[c].phase == Idle && !s.who[c].stopped
  }

  function Set(s: State, c: nat, phase: Phase): State
    requires c < |s.who|
  {
    s.(who := s.who[c := s.who[c].(phase := phase)])
  }

  // ----- the steps -----

  /** draft_folder: a draft already claimed is refused before anything is written. */
  ghost predicate Check(cfg: Config, s: State, t: State, c: nat)
    requires c < |s.who|
  {
    s.who[c].phase == Idle && t == Set(s, c, if Claimed in s.names then Refused else Checked)
  }

  /** The temporary file opened for writing: emptied where the name is there, new where it is not. */
  ghost predicate Open(cfg: Config, s: State, t: State, c: nat)
    requires c < |s.who| == |cfg.tmp|
  {
    && s.who[c].phase == Checked
    && var name := Temp(cfg.tmp[c]);
       var file := if name in s.names then s.names[name] else s.next;
       t == State(s.names[name := file], s.content[file := ""], if name in s.names then s.next else s.next + 1,
                  s.who[c := Claimant(Writing, file, false)])
  }

  /** Some more of the text is written, from where its own writing stands. */
  ghost predicate Write(cfg: Config, s: State, t: State, c: nat)
    requires c < |s.who| == |cfg.text|
  {
    && s.who[c].phase == Writing && s.who[c].file in s.content
    && exists more :: s.content[s.who[c].file] + more <= cfg.text[c]
                      && t == s.(content := s.content[s.who[c].file := s.content[s.who[c].file] + more])
  }

  /** The whole text written, its name is linked into place, unless a claim is there. */
  ghost predicate Link(cfg: Config, s: State, t: State, c: nat)
    requires c < |s.who| == |cfg.tmp| == |cfg.text|
  {
    && s.who[c].phase == Writing && s.who[c].file in s.content && s.content[s.who[c].file] == cfg.text[c]
    && if Claimed in s.names then t == Set(s, c, Beaten)
       else Temp(cfg.tmp[c]) in s.names
            && t == Set(s.(names := s.names[Claimed := s.names[Temp(cfg.tmp[c])]]), c, Linked)
  }

  /** The link fails for a reason other than a claim that is there. */
  ghost predicate LinkFails(cfg: Config, s: State, t: State, c: nat)
    requires c < |s.who| == |cfg.text|
  {
    && s.who[c].phase == Writing && s.who[c].file in s.content && s.content[s.who[c].file] == cfg.text[c]
    && t == Set(s, c, Failed)
  }

  /** What a claimant is when its temporary name has gone. */
  function Through(p: Phase): Phase {
    if p == Linked then Won else if p == Beaten then Refused else Errored
  }

  /** The temporary name goes, however the link went: the claim has succeeded, is refused, or has failed. */
  ghost predicate Unlink(cfg: Config, s: State, t: State, c: nat)
    requires c < |s.who| == |cfg.tmp|
  {
    && (s.who[c].phase == Linked || s.who[c].phase == Beaten || s.who[c].phase == Failed)
    && t == Set(s.(names := s.names - {Temp(cfg.tmp[c])}), c, Through(s.who[c].phase))
  }

  ghost predicate Stop(s: State, t: State, c: nat)
    requires c < |s.who|
  {
    t == s.(who := s.who[c := s.who[c].(stopped := true)])
  }

  ghost predicate StepOf(cfg: Config, s: State, t: State, c: nat) {
    && cfg.Valid() && c < |s.who| == |cfg.tmp| && !s.who[c].stopped
    && (Check(cfg, s, t, c) || Open(cfg, s, t, c) || Write(cfg, s, t, c) || Link(cfg, s, t, c)
        || LinkFails(cfg, s, t, c) || Unlink(cfg, s, t, c) || Stop(s, t, c))
  }

  /** Any claimant takes a step. */
  ghost predicate Next(cfg: Config, s: State, t: State) {
    exists c :: StepOf(cfg, s, t, c)
  }

  ghost predicate IsRun(cfg: Config, run: seq<State>) {
    run != [] && Init(cfg, run[0]) && forall i | 0 <= i < |run| - 1 :: Next(cfg, run[i], run[i+1])
  }

  // ----- what every step keeps -----

  predicate HasFile(p: Phase) {
    p == Writing || p == Linked || p == Beaten || p == Failed
  }

  predicate Succeeded(p: Phase) {
    p == Linked || p == Won
  }

  /** One claimant, by itself: its temporary name is its own file while it has one, holding its text so far. */
  ghost predicate Keeps(cfg: Config, s: State, c: nat)
    requires c < |s.who| == |cfg.tmp| == |cfg.text|
  {
    var w, name := s.who[c], Temp(cfg.tmp[c]);
    && (if HasFile(w.phase) then name in s.names && s.names[name] == w.file else name !in s.names)
    && (HasFile(w.phase) || w.phase == Won ==> w.file < s.next && w.file in s.content)
    && (w.phase == Writing ==> s.content[w.file] <= cfg.text[c])
    && (Succeeded(w.phase) ==> Claimed in s.names && s.names[Claimed] == w.file && s.content[w.file] == cfg.text[c])
    && (w.phase == Beaten || w.phase == Refused ==> Claimed in s.names)
  }

  /** Two claimants' files are two files. */
  ghost predicate Apart(s: State, c: nat, d: nat)
    requires c < |s.who| && d < |s.who|
  {
    && (HasFile(s.who[c].phase) || s.who[c].phase == Won) && (HasFile(s.who[d].phase) || s.who[d].phase == Won)
       ==> s.who[c].file != s.who[d].file
  }

  ghost predicate Inv(cfg: Config, s: State) {
    && cfg.Valid() && cfg.NamesDiffer() && |s.who| == |cfg.tmp|
    && (forall c {:trigger Keeps(cfg, s, c)} | 0 <= c < |s.who| :: Keeps(cfg, s, c))
    && (forall c, d {:trigger Apart(s, c, d)} | 0 <= c < |s.who| && 0 <= d < |s.who| && c != d :: Apart(s, c, d))
    && (Claimed in s.names ==> exists c :: 0 <= c < |s.who| && Succeeded(s.who[c].phase))
  }

  lemma InitKeeps(cfg: Config, s: State)
    requires Init(cfg, s) && cfg.NamesDiffer()
    ensures Inv(cfg, s)
  {
  }

  lemma WinnerIsOne(cfg: Config, s: State, c: nat, d: nat)
    requires Inv(cfg, s) && c < |s.who| && d < |s.who| && Succeeded(s.who[c].phase) && Succeeded(s.who[d].phase)
    ensures c == d
  {
    assert Keeps(cfg, s, c) && Keeps(cfg, s, d);
    assert c != d ==> Apart(s, c, d);
  }

  lemma CheckKeeps(cfg: Config, s: State, t: State, c: nat)
    requires Inv(cfg, s) && c < |s.who| && Check(cfg, s, t, c)
    ensures Inv(cfg, t)
  {
    forall d | 0 <= d < |t.who| ensures Keeps(cfg, t, d) {
      assert Keeps(cfg, s, d);
    }
    forall d, e | 0 <= d < |t.who| && 0 <= e < |t.who| && d != e ensures Apart(t, d, e) {
      assert Apart(s, d, e);
    }
    WinnerStays(cfg, s, t, c);
  }

  /** Whoever has succeeded still has, unless it is the one that takes the step. */
  lemma WinnerStays(cfg: Config, s: State, t: State, c: nat)
    requires Inv(cfg, s) && |t.who| == |s.who| && c < |s.who|
    requires forall d | 0 <= d < |s.who| && d != c :: t.who[d].phase == s.who[d].phase
    requires Succeeded(s.who[c].phase) ==> Succeeded(t.who[c].phase)
    ensures Claimed in s.names ==> exists d :: 0 <= d < |t.who| && Succeeded(t.who[d].phase)
  {
    if Claimed in s.names {
      var d :| 0 <= d < |s.who| && Succeeded(s.who[d].phase);
      assert Succeeded(t.who[d].phase);
    }
  }

  lemma OpenKeeps(cfg: Config, s: State, t: State, c: nat)
    requires Inv(cfg, s) && c < |s.who| && Open(cfg, s, t, c)
    ensures Inv(cfg, t)
  {
    assert Keeps(cfg, s, c);
    forall d | 0 <= d < |t.who| ensures Keeps(cfg, t, d) {
      assert Keeps(cfg, s, d);
      assert d != c ==> cfg.tmp[d] != cfg.tmp[c];
    }
    forall d, e | 0 <= d < |t.who| && 0 <= e < |t.who| && d != e ensures Apart(t, d, e) {
      assert Apart(s, d, e) && Keeps(cfg, s, d) && Keeps(cfg, s, e);
    }
    WinnerStays(cfg, s, t, c);
  }

  lemma WriteKeeps(cfg: Config, s: State, t: State, c: nat)
    requires Inv(cfg, s) && c < |s.who| && Write(cfg, s, t, c)
    ensures Inv(cfg, t)
  {
    forall d | 0 <= d < |t.who| ensures Keeps(cfg, t, d) {
      assert Keeps(cfg, s, d) && Keeps(cfg, s, c);
      if d != c {
        assert Apart(s, c, d);
      }
    }
    forall d, e | 0 <= d < |t.who| && 0 <= e < |t.who| && d != e ensures Apart(t, d, e) {
      assert Apart(s, d, e);
    }
    WinnerStays(cfg, s, t, c);
  }

  lemma LinkKeeps(cfg: Config, s: State, t: State, c: nat)
    requires Inv(cfg, s) && c < |s.who| && Link(cfg, s, t, c)
    ensures Inv(cfg, t)
  {
    assert Keeps(cfg, s, c);
    forall d | 0 <= d < |t.who| ensures Keeps(cfg, t, d) {
      assert Keeps(cfg, s, d);
    }
    forall d, e | 0 <= d < |t.who| && 0 <= e < |t.who| && d != e ensures Apart(t, d, e) {
      assert Apart(s, d, e);
    }
    if Claimed in s.names {
      WinnerStays(cfg, s, t, c);
    } else {
      assert Succeeded(t.who[c].phase);
    }
  }

  lemma LinkFailsKeeps(cfg: Config, s: State, t: State, c: nat)
    requires Inv(cfg, s) && c < |s.who| && LinkFails(cfg, s, t, c)
    ensures Inv(cfg, t)
  {
    forall d | 0 <= d < |t.who| ensures Keeps(cfg, t, d) {
      assert Keeps(cfg, s, d);
    }
    forall d, e | 0 <= d < |t.who| && 0 <= e < |t.who| && d != e ensures Apart(t, d, e) {
      assert Apart(s, d, e);
    }
    WinnerStays(cfg, s, t, c);
  }

  lemma UnlinkKeeps(cfg: Config, s: State, t: State, c: nat)
    requires Inv(cfg, s) && c < |s.who| && Unlink(cfg, s, t, c)
    ensures Inv(cfg, t)
  {
    assert Keeps(cfg, s, c);
    forall d | 0 <= d < |t.who| ensures Keeps(cfg, t, d) {
      assert Keeps(cfg, s, d);
      assert d != c ==> cfg.tmp[d] != cfg.tmp[c];
    }
    forall d, e | 0 <= d < |t.who| && 0 <= e < |t.who| && d != e ensures Apart(t, d, e) {
      assert Apart(s, d, e);
    }
    WinnerStays(cfg, s, t, c);
  }

  lemma StopKeeps(cfg: Config, s: State, t: State, c: nat)
    requires Inv(cfg, s) && c < |s.who| && Stop(s, t, c)
    ensures Inv(cfg, t)
  {
    forall d | 0 <= d < |t.who| ensures Keeps(cfg, t, d) {
      assert Keeps(cfg, s, d);
    }
    forall d, e | 0 <= d < |t.who| && 0 <= e < |t.who| && d != e ensures Apart(t, d, e) {
      assert Apart(s, d, e);
    }
    WinnerStays(cfg, s, t, c);
  }

  lemma NextKeeps(cfg: Config, s: State, t: State)
    requires Inv(cfg, s) && Next(cfg, s, t)
    ensures Inv(cfg, t)
  {
    var c :| StepOf(cfg, s, t, c);
    if Check(cfg, s, t, c) {
      CheckKeeps(cfg, s, t, c);
    } else if Open(cfg, s, t, c) {
      OpenKeeps(cfg, s, t, c);
    } else if Write(cfg, s, t, c) {
      WriteKeeps(cfg, s, t, c);
    } else if Link(cfg, s, t, c) {
      LinkKeeps(cfg, s, t, c);
    } else if LinkFails(cfg, s, t, c) {
      LinkFailsKeeps(cfg, s, t, c);
    } else if Unlink(cfg, s, t, c) {
      UnlinkKeeps(cfg, s, t, c);
    } else {
      StopKeeps(cfg, s, t, c);
    }
  }

  lemma {:induction false} RunKeeps(cfg: Config, run: seq<State>, i: nat)
    requires IsRun(cfg, run) && cfg.NamesDiffer() && i < |run|
    ensures Inv(cfg, run[i])
  {
    if i == 0 {
      InitKeeps(cfg, run[0]);
    } else {
      RunKeeps(cfg, run, i - 1);
      assert Next(cfg, run[i-1], run[i-1+1]);
      NextKeeps(cfg, run[i-1], run[i]);
    }
  }

  // ----- what is promised -----

  /** What a reader of the claim finds. */
  ghost function Claim(s: State): Option<string> {
    if Claimed in s.names && s.names[Claimed] in s.content then Some(s.content[s.names[Claimed]]) else None
  }

  /** The claim, once visible, is one claimant's whole text; that claimant has succeeded and no other has;
      and everyone else who is through is refused. */
  lemma OneWholeClaim(cfg: Config, run: seq<State>, i: nat)
    requires IsRun(cfg, run) && cfg.NamesDiffer() && i < |run|
    ensures var s := run[i];
            && |s.who| == |cfg.tmp| == |cfg.text|
            && (Claimed !in s.names ==> forall c | 0 <= c < |s.who| :: !Succeeded(s.who[c].phase)
                                                                       && s.who[c].phase != Refused)
            && (Claimed in s.names ==>
                  exists w :: 0 <= w < |s.who| && Claim(s) == Some(cfg.text[w]) && Succeeded(s.who[w].phase)
                              && forall c | 0 <= c < |s.who| && c != w :: !Succeeded(s.who[c].phase))
  {
    var s := run[i];
    RunKeeps(cfg, run, i);
    forall c | 0 <= c < |s.who| ensures Keeps(cfg, s, c) {}
    if Claimed in s.names {
      var w :| 0 <= w < |s.who| && Succeeded(s.who[w].phase);
      assert Keeps(cfg, s, w);
      forall c: nat | c < |s.who| && Succeeded(s.who[c].phase) ensures c == w {
        WinnerIsOne(cfg, s, c, w);
      }
    } else {
      forall c | 0 <= c < |s.who| ensures !Succeeded(s.who[c].phase) && s.who[c].phase != Refused {
        assert Keeps(cfg, s, c);
      }
    }
  }

  /** A step leaves a visible claim as it is. */
  lemma ClaimStays(cfg: Config, s: State, t: State)
    requires Inv(cfg, s) && Next(cfg, s, t) && Claim(s).Some?
    ensures Claim(t) == Claim(s)
  {
    var c :| StepOf(cfg, s, t, c);
    var w :| 0 <= w < |s.who| && Succeeded(s.who[w].phase);
    assert Keeps(cfg, s, w) && Keeps(cfg, s, c);
    if c != w {
      assert Apart(s, c, w);
    }
  }

  /** Once visible, the claim is never written over, nor taken away. */
  lemma {:induction false} ClaimIsFinal(cfg: Config, run: seq<State>, i: nat, j: nat)
    requires IsRun(cfg, run) && cfg.NamesDiffer() && i <= j < |run| && Claim(run[i]).Some?
    ensures Claim(run[j]) == Claim(run[i])
  {
    if i < j {
      ClaimIsFinal(cfg, run, i, j - 1);
      RunKeeps(cfg, run, j - 1);
      assert Next(cfg, run[j-1], run[j-1+1]);
      ClaimStays(cfg, run[j-1], run[j]);
    }
  }

  predicate IsThrough(p: Phase) {
    p == Won || p == Refused || p == Errored
  }

  /** When every claimant is through, and not every link failed, exactly one has won, and the claim is its text. */
  lemma OneWins(cfg: Config, run: seq<State>, i: nat)
    requires IsRun(cfg, run) && cfg.NamesDiffer() && i < |run|
    requires forall c | 0 <= c < |run[i].who| :: IsThrough(run[i].who[c].phase)
    requires exists c :: 0 <= c < |run[i].who| && run[i].who[c].phase != Errored
    ensures exists w :: 0 <= w < |run[i].who| == |cfg.text| && Claim(run[i]) == Some(cfg.text[w])
                        && forall c | 0 <= c < |run[i].who| :: run[i].who[c].phase == Won <==> c == w
  {
    var s := run[i];
    RunKeeps(cfg, run, i);
    var c :| 0 <= c < |s.who| && s.who[c].phase != Errored;
    assert Keeps(cfg, s, c);
    OneWholeClaim(cfg, run, i);
    var w :| 0 <= w < |s.who| && Claim(s) == Some(cfg.text[w]) && Succeeded(s.who[w].phase)
             && forall c | 0 <= c < |s.who| && c != w :: !Succeeded(s.who[c].phase);
    assert IsThrough(s.who[w].phase);
    assert forall c | 0 <= c < |s.who| :: s.who[c].phase == Won <==> c == w;
  }

  /** A claimant that is through, even by a link that failed, has left no temporary file behind. */
  lemma NothingLeftBehind(cfg: Config, run: seq<State>, i: nat, c: nat)
    requires IsRun(cfg, run) && cfg.NamesDiffer() && i < |run| && c < |run[i].who| == |cfg.tmp|
    requires IsThrough(run[i].who[c].phase)
    ensures Temp(cfg.tmp[c]) !in run[i].names
  {
    RunKeeps(cfg, run, i);
    assert Keeps(cfg, run[i], c);
  }

  // ----- the names must differ -----

  /** Two claimants of one name look, the first opens, writes and links its claim, and the second opens the name. */
  function Shared(cfg: Config, c: nat, d: nat, i: nat): State
    requires cfg.Valid() && c < |cfg.tmp| && d < |cfg.tmp|
  {
    var n, checked := Temp(cfg.tmp[c]), Claimant(Checked, 0, false);
    var writing, linked := Claimant(Writing, 0, false), Claimant(Linked, 0, false);
    var idle := seq(|cfg.tmp|, _ => Claimant(Idle, 0, false));
    if i == 0 then State(map[], map[], 0, idle)
    else if i == 1 then State(map[], map[], 0, idle[c := checked])
    else if i == 2 then State(map[], map[], 0, idle[c := checked][d := checked])
    else if i == 3 then State(map[n := 0], map[0 := ""], 1, idle[c := writing][d := checked])
    else if i == 4 then State(map[n := 0], map[0 := cfg.text[c]], 1, idle[c := writing][d := checked])
    else if i == 5 then State(map[n := 0, Claimed := 0], map[0 := cfg.text[c]], 1, idle[c := linked][d := checked])
    else State(map[n := 0, Claimed := 0], map[0 := ""], 1, idle[c := linked][d := writing])
  }

  /** The two share a temporary name. */
  ghost predicate Share(cfg: Config, c: nat, d: nat) {
    cfg.Valid() && c < |cfg.tmp| && d < |cfg.tmp| && c != d && cfg.tmp[c] == cfg.tmp[d]
  }

  lemma SharedStart(cfg: Config, c: nat, d: nat)
    requires Share(cfg, c, d)
    ensures StepOf(cfg, Shared(cfg, c, d, 0), Shared(cfg, c, d, 1), c)
    ensures StepOf(cfg, Shared(cfg, c, d, 1), Shared(cfg, c, d, 2), d)
  {
    assert Check(cfg, Shared(cfg, c, d, 0), Shared(cfg, c, d, 1), c);
    assert Check(cfg, Shared(cfg, c, d, 1), Shared(cfg, c, d, 2), d);
  }

  lemma SharedOpen(cfg: Config, c: nat, d: nat)
    requires Share(cfg, c, d)
    ensures StepOf(cfg, Shared(cfg, c, d, 2), Shared(cfg, c, d, 3), c)
  {
    var s, t := Shared(cfg, c, d, 2), Shared(cfg, c, d, 3);
    assert t.who == s.who[c := Claimant(Writing, 0, false)];
    assert Open(cfg, s, t, c);
  }

  lemma SharedWrite(cfg: Config, c: nat, d: nat)
    requires Share(cfg, c, d)
    ensures StepOf(cfg, Shared(cfg, c, d, 3), Shared(cfg, c, d, 4), c)
  {
    var s, t, more := Shared(cfg, c, d, 3), Shared(cfg, c, d, 4), cfg.text[c];
    assert s.content[0] + more == more && t == s.(content := s.content[0 := s.content[0] + more]);
    assert Write(cfg, s, t, c);
  }

  lemma SharedLink(cfg: Config, c: nat, d: nat)
    requires Share(cfg, c, d)
    ensures StepOf(cfg, Shared(cfg, c, d, 4), Shared(cfg, c, d, 5), c)
  {
    var s, t := Shared(cfg, c, d, 4), Shared(cfg, c, d, 5);
    assert t.who == s.who[c := s.who[c].(phase := Linked)];
    assert Link(cfg, s, t, c);
  }

  lemma SharedReopen(cfg: Config, c: nat, d: nat)
    requires Share(cfg, c, d)
    ensures StepOf(cfg, Shared(cfg, c, d, 5), Shared(cfg, c, d, 6), d)
  {
    var s, t := Shared(cfg, c, d, 5), Shared(cfg, c, d, 6);
    assert t.who == s.who[d := Claimant(Writing, 0, false)];
    assert Open(cfg, s, t, d);
  }

  lemma SharedStep(cfg: Config, c: nat, d: nat, i: nat)
    requires Share(cfg, c, d) && i < 6
    ensures Next(cfg, Shared(cfg, c, d, i), Shared(cfg, c, d, i + 1))
  {
    if i < 2 {
      SharedStart(cfg, c, d);
    } else if i == 2 {
      SharedOpen(cfg, c, d);
    } else if i == 3 {
      SharedWrite(cfg, c, d);
    } else if i == 4 {
      SharedLink(cfg, c, d);
    } else {
      SharedReopen(cfg, c, d);
    }
  }

  /** Any two claimants of one temporary name can empty a claim that was visible. */
  lemma OneNameEmptiesTheClaim(cfg: Config, c: nat, d: nat) returns (run: seq<State>)
    requires Share(cfg, c, d)
    ensures IsRun(cfg, run) && |run| == 7
    ensures Claim(run[5]) == Some(cfg.text[c]) && Claim(run[6]) == Some("")
  {
    run := seq(7, i requires 0 <= i < 7 => Shared(cfg, c, d, i));
    forall i | 0 <= i < 6 ensures Next(cfg, run[i], run[i+1]) {
      SharedStep(cfg, c, d, i);
    }
  }

  /** A visible claim stays as it is in every run. */
  ghost predicate ClaimsAreFinal(cfg: Config) {
    forall run, i, j | IsRun(cfg, run) && 0 <= i <= j < |run| && Claim(run[i]).Some? ::
      Claim(run[j]) == Claim(run[i])
  }

  /** A claim is never empty, so it is final whatever the claimants do exactly when their names differ. */
  lemma FinalIffNamesDiffer(cfg: Config)
    requires cfg.Valid() && forall c | 0 <= c < |cfg.text| :: cfg.text[c] != ""
    ensures ClaimsAreFinal(cfg) <==> cfg.NamesDiffer()
  {
    if cfg.NamesDiffer() {
      forall run, i, j | IsRun(cfg, run) && 0 <= i <= j < |run| && Claim(run[i]).Some?
        ensures Claim(run[j]) == Claim(run[i])
      {
        ClaimIsFinal(cfg, run, i, j);
      }
    } else {
      var c, d :| 0 <= c < d < |cfg.tmp| && cfg.tmp[c] == cfg.tmp[d];
      var run := OneNameEmptiesTheClaim(cfg, c, d);
      assert IsRun(cfg, run) && Claim(run[5]).Some? && Claim(run[6]) != Claim(run[5]);
    }
  }
}
