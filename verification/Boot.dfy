/** The bootloader's upgrade: back the application up, overwrite it block by block, and roll back on
    the next boot when the upgrade was cut off. Flash is a list of pages; every page erase and word
    program appends the flash it leaves to the ghost `log`, the states a power loss can leave. */
module Boot {

  type Word = bv32
  type Page = seq<Word>
  type Flash = seq<Page>

  // 512 KB in 2 KB pages; page numbers count from address 0x08000000.
  const PAGE_NUM := 256
  const PAGE_WORDS := 512
  const APP_PAGE := 16          // 0x08008000
  const BACKUP_PAGE := 128      // 0x08040000
  const FLAG_PAGE := 240        // 0x08078000
  const TYPE_PAGE := 241        // 0x08078800
  const BACKUP_BLOCKS := 25
  const APP_PAGES := 112        // pages from the application to the backup
  const ERASED: Word := 0xFFFFFFFF
  const UPGRADE_START: Word := 0x1000
  const UPGRADE_STOP: Word := 0x2000
  const UPGRADING: Word := 2000
  const NORMAL: Word := 1000

  predicate Wf(f: Flash) {
    |f| == PAGE_NUM && forall p :: 0 <= p < PAGE_NUM ==> |f[p]| == PAGE_WORDS
  }

  const BLANK_PAGE: Page := seq(PAGE_WORDS, _ => ERASED)

  /** A page programmed up to word `k`. */
  function Partial(ws: Page, k: nat): (p: Page)
    requires k <= |ws| <= PAGE_WORDS
    ensures |p| == 512 && forall i :: 0 <= i < 512 ==> p[i] == if i < k then ws[i] else 0xFFFF_FFFF
  {
    ws[..k] + seq(PAGE_WORDS - k, _ => ERASED)
  }

  /** Programming a word can only clear bits. */
  function Programmed(f: Flash, p: nat, i: nat, w: Word): Flash
    requires Wf(f) && p < PAGE_NUM && i < PAGE_WORDS
  {
    f[p := f[p][i := f[p][i] & w]]
  }

  function Flag(f: Flash): Word requires Wf(f) { f[FLAG_PAGE][0] }
  function AppType(f: Flash): Word requires Wf(f) { f[TYPE_PAGE][0] }

  /** The first `n` pages of the application, and of the backup. */
  function App(f: Flash, n: nat): seq<Page>
    requires Wf(f) && n <= APP_PAGES
  {
    f[APP_PAGE..APP_PAGE + n]
  }

  function Backup(f: Flash): seq<Page>
    requires Wf(f)
  {
    f[BACKUP_PAGE..BACKUP_PAGE + BACKUP_BLOCKS]
  }

  /** The two flashes agree outside the pages `lo` to `hi`. */
  predicate SameOutside(f: Flash, f': Flash, lo: int, hi: int) {
    |f'| == |f| && forall p :: 0 <= p < |f| && !(lo <= p < hi) ==> f'[p] == f[p]
  }

  // ---------------------------------------------------------------- what a power loss can leave

  /** A rollback is due, and the backup holds `img`. */
  ghost predicate Protected(f: Flash, img: seq<Page>) {
    Wf(f) && Flag(f) != UPGRADE_START && AppType(f) == UPGRADING && Backup(f) == img
  }

  /** Nothing is due, and the application starts with `img`. */
  ghost predicate Settled(f: Flash, img: seq<Page>) {
    Wf(f) && Flag(f) != UPGRADE_START && AppType(f) != UPGRADING && |img| <= APP_PAGES && App(f, |img|) == img
  }

  /** A state that a boot doing a rollback from `f` can leave behind: part of the application
      rewritten, or all of it and then the type word. */
  ghost predicate RollbackLeaves(f: Flash, f': Flash)
    requires Wf(f)
  {
    && Wf(f')
    && (SameOutside(f, f', APP_PAGE, APP_PAGE + BACKUP_BLOCKS)
        || (RolledBack(f, f') && AppType(f') != UPGRADING))
  }

  ghost predicate RolledBack(f: Flash, f': Flash)
    requires Wf(f)
  {
    && Wf(f') && App(f', BACKUP_BLOCKS) == Backup(f)
    && forall p :: 0 <= p < PAGE_NUM && !(APP_PAGE <= p < APP_PAGE + BACKUP_BLOCKS) && p != TYPE_PAGE ==> f'[p] == f[p]
  }

  /** Boots cut off one after the other, each starting from what the one before left behind. */
  ghost predicate Rollbacks(fs: seq<Flash>) {
    && fs != [] && (forall i :: 0 <= i < |fs| ==> Wf(fs[i]))
    && forall i :: 0 <= i < |fs| - 1 ==> AppType(fs[i]) == UPGRADING && RollbackLeaves(fs[i], fs[i + 1])
  }

  /** However often the rollback is cut off, the image stays protected until it is in place. */
  lemma {:induction false} RollbackSurvives(fs: seq<Flash>, img: seq<Page>)
    requires Rollbacks(fs) && Protected(fs[0], img)
    ensures Protected(fs[|fs| - 1], img) || Settled(fs[|fs| - 1], img)
  {
    if |fs| > 1 {
      var before := fs[..|fs| - 1];
      RollbackSurvives(before, img);
      assert before[|before| - 1] == fs[|fs| - 2];
      LeavesProtected(fs[|fs| - 2], fs[|fs| - 1], img);
    }
  }

  lemma LeavesProtected(f: Flash, f': Flash, img: seq<Page>)
    requires Wf(f) && AppType(f) == UPGRADING && RollbackLeaves(f, f')
    requires Protected(f, img) || Settled(f, img)
    ensures Protected(f', img) || Settled(f', img)
  {
    if SameOutside(f, f', APP_PAGE, APP_PAGE + BACKUP_BLOCKS) {
      assert Backup(f') == Backup(f);
    }
  }

  /** So the first boot that finishes puts the image back, and starts it from then on. */
  lemma NextBootRestores(fs: seq<Flash>, img: seq<Page>)
    requires Rollbacks(fs) && Protected(fs[0], img)
    ensures AppType(fs[|fs| - 1]) == UPGRADING ==> Settled(Recovered(fs[|fs| - 1]), img)
    ensures AppType(fs[|fs| - 1]) != UPGRADING ==> Settled(fs[|fs| - 1], img)
  {
    RollbackSurvives(fs, img);
    var f := fs[|fs| - 1];
    if AppType(f) == UPGRADING {
      assert Recovered(f)[TYPE_PAGE][0] == NORMAL;
      assert Recovered(f)[FLAG_PAGE] == f[FLAG_PAGE];
      assert App(Recovered(f), BACKUP_BLOCKS) == Backup(f);
    }
  }

  // ---------------------------------------------------------------- how many blocks are safe

  /** The flash after an upgrade wrote `blocks` over the application and what follows it. */
  function Overwritten(f: Flash, blocks: seq<Page>): Flash
    requires |f| == PAGE_NUM && APP_PAGE + |blocks| <= PAGE_NUM
  {
    f[..APP_PAGE] + blocks + f[APP_PAGE + |blocks|..]
  }

  predicate Blocks(blocks: seq<Page>) {
    APP_PAGE + |blocks| <= PAGE_NUM && forall j :: 0 <= j < |blocks| ==> |blocks[j]| == PAGE_WORDS
  }

  lemma OverwrittenWf(f: Flash, blocks: seq<Page>)
    requires Wf(f) && Blocks(blocks)
    ensures Wf(Overwritten(f, blocks))
  {
  }

  /** The flash after a rollback ran to its end. */
  function Recovered(f: Flash): (f': Flash)
    requires Wf(f)
  {
    Overwritten(f, Backup(f))[TYPE_PAGE := Partial([NORMAL], 1)]
  }

  /** An upgrade of `n` blocks keeps every backup exactly when it stays below the backup pages. */
  lemma BackupKeptIff(n: nat)
    requires APP_PAGE + n <= PAGE_NUM
    ensures (forall f, blocks :: Wf(f) && Blocks(blocks) && |blocks| == n ==>
               Wf(Overwritten(f, blocks)) && Backup(Overwritten(f, blocks)) == Backup(f)) <==> n <= APP_PAGES
  {
    forall f, blocks | Wf(f) && Blocks(blocks) ensures Wf(Overwritten(f, blocks)) {
      OverwrittenWf(f, blocks);
    }
    if n > APP_PAGES {
      var f: Flash := seq(PAGE_NUM, _ => BLANK_PAGE);
      var blocks: seq<Page> := seq(n, _ => Partial([NORMAL], 1));
      assert Wf(f) && Blocks(blocks);
      assert Backup(Overwritten(f, blocks))[0] == Overwritten(f, blocks)[BACKUP_PAGE] == blocks[APP_PAGES];
      assert Backup(f)[0] == BLANK_PAGE && BLANK_PAGE[0] == ERASED && Partial([NORMAL], 1)[0] == NORMAL;
      assert Backup(Overwritten(f, blocks)) != Backup(f);
    }
  }

  /** After a backup, an upgrade of `n` blocks and a rollback, the whole application area is the old
      one for every image exactly when `n` is at most the number of blocks backed up. */
  lemma RestoredIff(n: nat)
    requires n <= APP_PAGES
    ensures (forall f, blocks :: Wf(f) && Backup(f) == App(f, BACKUP_BLOCKS) && Blocks(blocks) && |blocks| == n ==>
               Wf(Overwritten(f, blocks)) && App(Recovered(Overwritten(f, blocks)), APP_PAGES) == App(f, APP_PAGES))
            <==> n <= BACKUP_BLOCKS
  {
    forall f, blocks | Wf(f) && Blocks(blocks) ensures Wf(Overwritten(f, blocks)) {
      OverwrittenWf(f, blocks);
    }
    forall f, blocks | Wf(f) && Backup(f) == App(f, BACKUP_BLOCKS) && Blocks(blocks) && |blocks| == n
      ensures n <= BACKUP_BLOCKS ==> App(Recovered(Overwritten(f, blocks)), APP_PAGES) == App(f, APP_PAGES)
    {
      var g := Overwritten(f, blocks);
      forall i | 0 <= i < APP_PAGES && n <= BACKUP_BLOCKS ensures App(Recovered(g), APP_PAGES)[i] == App(f, APP_PAGES)[i] {
        RestoredPage(f, blocks, i);
      }
    }
    if n > BACKUP_BLOCKS {
      var f: Flash := seq(PAGE_NUM, _ => BLANK_PAGE);
      var blocks: seq<Page> := seq(n, _ => Partial([NORMAL], 1));
      assert Wf(f) && Blocks(blocks) && Backup(f) == App(f, BACKUP_BLOCKS);
      var g := Overwritten(f, blocks);
      assert g[APP_PAGE + BACKUP_BLOCKS] == blocks[BACKUP_BLOCKS];
      assert Recovered(g)[APP_PAGE + BACKUP_BLOCKS] == g[APP_PAGE + BACKUP_BLOCKS];
      assert App(f, APP_PAGES)[BACKUP_BLOCKS] == BLANK_PAGE && BLANK_PAGE[0] == ERASED && Partial([NORMAL], 1)[0] == NORMAL;
    }
  }

  lemma RestoredPage(f: Flash, blocks: seq<Page>, i: nat)
    requires Wf(f) && Backup(f) == App(f, BACKUP_BLOCKS) && Blocks(blocks) && |blocks| <= BACKUP_BLOCKS && i < APP_PAGES
    ensures Wf(Overwritten(f, blocks)) && Recovered(Overwritten(f, blocks))[APP_PAGE + i] == f[APP_PAGE + i]
  {
    var g := Overwritten(f, blocks);
    if i < BACKUP_BLOCKS {
      assert Recovered(g)[APP_PAGE + i] == Backup(g)[i] == g[BACKUP_PAGE + i] == f[BACKUP_PAGE + i] == Backup(f)[i];
      assert App(f, BACKUP_BLOCKS)[i] == f[APP_PAGE + i];
    } else {
      assert Recovered(g)[APP_PAGE + i] == g[APP_PAGE + i] == f[APP_PAGE + i];
    }
  }

  // ---------------------------------------------------------------- the bootloader

  datatype Outcome = Upgraded | RolledBackAndReset | Started

  class Bootloader {
    var flash: Flash
    var appAddress: nat
    ghost var log: seq<Flash>

    /** A boot: the address the upgrade advances starts at the application again. */
    constructor (f: Flash)
      requires Wf(f)
      ensures flash == f && appAddress == APP_PAGE && log == []
    {
      flash, appAddress, log := f, APP_PAGE, [];
    }

    method ErasePage(p: nat)
      requires Wf(flash) && p < PAGE_NUM
      modifies `flash, `log
      ensures Wf(flash) && flash == old(flash)[p := flash[p]] && forall i :: 0 <= i < 512 ==> flash[p][i] == 0xFFFF_FFFF
      ensures flash == old(flash)[p := BLANK_PAGE] && log == old(log) + [flash]
    {
      flash := flash[p := BLANK_PAGE];
      log := log + [flash];
    }

    method ProgramWord(p: nat, i: nat, w: Word)
      requires Wf(flash) && p < PAGE_NUM && i < PAGE_WORDS
      modifies `flash, `log
      ensures Wf(flash) && flash == old(flash)[p := old(flash[p])[i := old(flash[p][i]) & w]] == Programmed(old(flash), p, i, w)
      ensures log == old(log) + [flash]
    {
      flash := Programmed(flash, p, i, w);
      log := log + [flash];
    }

    /** Erase page `p`, then program the words `ws` from its start. */
    method WritePage(p: nat, ws: Page)
      requires Wf(flash) && p < PAGE_NUM && |ws| <= PAGE_WORDS
      modifies `flash, `log
      ensures Wf(flash) && flash == old(flash)[p := Partial(ws, |ws|)]
      ensures old(log) < log && Left(log, |old(log)|, |log|, old(flash), p, ws)
    {
      ghost var f := flash;
      PartialStart(ws);
      LeftMore(log, |log|, f, p, ws, 0);
      hide Partial, Left, Programmed, Wf;
      ErasePage(p);
      var i := 0;
      while i < |ws|
        invariant 0 <= i <= |ws| && Wf(flash) && flash == f[p := Partial(ws, i)]
        invariant old(log) < log && Left(log, |old(log)|, |log|, f, p, ws)
      {
        ProgramStep(f, p, ws, i);
        LeftMore(log, |old(log)|, f, p, ws, i + 1);
        ProgramWord(p, i, ws[i]);
        i := i + 1;
      }
    }

    /** Copy the application's first pages to the backup, page by page. */
    method BackupApplication()
      requires Wf(flash)
      modifies `flash, `log
      ensures Wf(flash) && Backup(flash) == App(old(flash), BACKUP_BLOCKS)
      ensures SameOutside(old(flash), flash, BACKUP_PAGE, BACKUP_PAGE + BACKUP_BLOCKS)
      ensures old(log) <= log && AllSameOutside(log, |old(log)|, |log|, old(flash), BACKUP_PAGE, BACKUP_PAGE + BACKUP_BLOCKS)
    {
      var i := 0;
      while i < BACKUP_BLOCKS
        invariant 0 <= i <= BACKUP_BLOCKS && Wf(flash)
        invariant SameOutside(old(flash), flash, BACKUP_PAGE, BACKUP_PAGE + BACKUP_BLOCKS)
        invariant forall p :: BACKUP_PAGE <= p < BACKUP_PAGE + i ==> flash[p] == old(flash)[p - APP_PAGES]
        invariant old(log) <= log && AllSameOutside(log, |old(log)|, |log|, old(flash), BACKUP_PAGE, BACKUP_PAGE + BACKUP_BLOCKS)
      {
        var page := flash[APP_PAGE + i];
        WritePage(BACKUP_PAGE + i, page);
        PartialWhole(page);
        i := i + 1;
      }
    }

    /** Copy the backup over the application's first pages, page by page. */
    method RecoverApplication()
      requires Wf(flash)
      modifies `flash, `log
      ensures Wf(flash) && flash == Overwritten(old(flash), Backup(old(flash)))
      ensures old(log) <= log && AllSameOutside(log, |old(log)|, |log|, old(flash), APP_PAGE, APP_PAGE + BACKUP_BLOCKS)
    {
      var i := 0;
      while i < BACKUP_BLOCKS
        invariant 0 <= i <= BACKUP_BLOCKS && Wf(flash)
        invariant SameOutside(old(flash), flash, APP_PAGE, APP_PAGE + BACKUP_BLOCKS)
        invariant forall p :: APP_PAGE <= p < APP_PAGE + i ==> flash[p] == old(flash)[p + APP_PAGES]
        invariant old(log) <= log && AllSameOutside(log, |old(log)|, |log|, old(flash), APP_PAGE, APP_PAGE + BACKUP_BLOCKS)
      {
        var page := flash[BACKUP_PAGE + i];
        WritePage(APP_PAGE + i, page);
        PartialWhole(page);
        i := i + 1;
      }
    }

    /** Write the received blocks over the application, one page each. */
    method RunUpgrade(blocks: seq<Page>)
      requires Wf(flash) && Blocks(blocks) && appAddress == APP_PAGE
      modifies `flash, `log, `appAddress
      ensures Wf(flash) && flash == Overwritten(old(flash), blocks) && appAddress == APP_PAGE + |blocks|
      ensures old(log) <= log && AllSameOutside(log, |old(log)|, |log|, old(flash), APP_PAGE, APP_PAGE + |blocks|)
    {
      var j := 0;
      while j < |blocks|
        invariant 0 <= j <= |blocks| && Wf(flash) && appAddress == APP_PAGE + j
        invariant SameOutside(old(flash), flash, APP_PAGE, APP_PAGE + |blocks|)
        invariant forall p :: APP_PAGE <= p < APP_PAGE + j ==> flash[p] == blocks[p - APP_PAGE]
        invariant old(log) <= log && AllSameOutside(log, |old(log)|, |log|, old(flash), APP_PAGE, APP_PAGE + |blocks|)
      {
        WritePage(appAddress, blocks[j]);
        PartialWhole(blocks[j]);
        appAddress := appAddress + 1;
        j := j + 1;
      }
    }

    /** One boot. The ghost results split the states it leaves: before `c1` only the flag and type
        pages changed, from `c1` to `c2` the backup is being made, and then, for an upgrade that
        stays below the backup, the old image is protected up to `c3` and the new one in place
        from there on. */
    method HandleUpgrade(blocks: seq<Page>) returns (outcome: Outcome, ghost c1: int, ghost c2: int, ghost c3: int)
      requires Wf(flash) && Blocks(blocks) && appAddress == APP_PAGE
      modifies `flash, `log, `appAddress
      ensures Wf(flash) && old(log) <= log
      ensures outcome == if old(flash)[240][0] == 0x1000 then Upgraded
                         else if old(flash)[241][0] == 2000 then RolledBackAndReset else Started
      ensures |old(log)| <= c1 <= c2 <= c3 <= |log|
      ensures outcome == Upgraded ==> AllSameOutside(log, |old(log)|, c2, old(flash), BACKUP_PAGE, PAGE_NUM)
      ensures outcome == Upgraded ==> AllSameOutside(log, |old(log)|, c1, old(flash), FLAG_PAGE, TYPE_PAGE + 1)
      ensures outcome == Upgraded && |blocks| <= APP_PAGES ==> forall i :: c2 <= i < c3 ==> Protected(log[i], App(old(flash), BACKUP_BLOCKS))
      ensures outcome == Upgraded && |blocks| <= APP_PAGES ==> forall i :: c3 <= i < |log| ==> Settled(log[i], blocks)
      ensures outcome == Upgraded && |blocks| <= APP_PAGES ==> Settled(flash, blocks) && AppType(flash) == NORMAL
      ensures outcome == Upgraded ==> UpgradedTo(old(flash), blocks, flash)
      ensures outcome == Upgraded ==> forall i :: c2 <= i < |log| ==> SameBut(flash, log[i], APP_PAGE, APP_PAGE + |blocks|, TYPE_PAGE)
      ensures outcome == RolledBackAndReset ==> flash == Recovered(old(flash)) && RecoveredTo(old(flash), flash)
      ensures outcome == RolledBackAndReset ==> forall i :: |old(log)| <= i < |log| ==> RollbackLeaves(old(flash), log[i])
      ensures outcome == Started ==> flash == old(flash) && log == old(log)
    {
      hide UpgradedTo, RecoveredTo;
      c1, c2, c3 := |log|, |log|, |log|;
      if flash[FLAG_PAGE][0] == UPGRADE_START {
        outcome := Upgraded;
        WritePage(FLAG_PAGE, [UPGRADE_STOP]);
        WritePage(TYPE_PAGE, [UPGRADING]);
        c1 := |log|;
        ghost var f1 := flash;
        BackupApplication();
        c2 := |log|;
        ghost var f2 := flash;
        assert Protected(f2, App(old(flash), BACKUP_BLOCKS));
        RunUpgrade(blocks);
        c3 := |log|;
        ghost var f3 := flash;
        WritePage(TYPE_PAGE, [NORMAL]);
        UpgradedPages(old(flash), f1, f2, blocks, flash);
        return;
      }
      if flash[TYPE_PAGE][0] == UPGRADING {
        outcome := RolledBackAndReset;
        RecoverApplication();
        WritePage(TYPE_PAGE, [NORMAL]);
        RecoveredPages(old(flash));
        return;
      }
      outcome := Started;
    }
  }

  /** After an upgrade the new blocks are where the application starts, what was there is in the backup unless the blocks
      reach into it, page 240 says that the upgrade stopped and page 241 that the application is a normal one; no other
      page has changed. */
  ghost predicate UpgradedTo(f: Flash, blocks: seq<Page>, f': Flash) {
    && Wf(f) && Wf(f') && Blocks(blocks)
    && forall p :: 0 <= p < 256 ==>
         if p == 241 then OneWord(f'[p], 1000)
         else if 16 <= p < 16 + |blocks| then f'[p] == blocks[p - 16]
         else if 128 <= p < 153 then f'[p] == f[p - 112]
         else if p == 240 then OneWord(f'[p], 0x2000)
         else f'[p] == f[p]
  }

  lemma UpgradedPages(f: Flash, f1: Flash, f2: Flash, blocks: seq<Page>, f': Flash)
    requires Wf(f) && Blocks(blocks) && f1 == f[FLAG_PAGE := Partial([UPGRADE_STOP], 1)][TYPE_PAGE := Partial([UPGRADING], 1)]
    requires Wf(f2) && SameOutside(f1, f2, BACKUP_PAGE, BACKUP_PAGE + BACKUP_BLOCKS) && Backup(f2) == App(f, BACKUP_BLOCKS)
    requires f' == Overwritten(f2, blocks)[TYPE_PAGE := Partial([NORMAL], 1)]
    ensures UpgradedTo(f, blocks, f')
  {
    OneWordIs(NORMAL);
    OneWordIs(UPGRADE_STOP);
    OverwrittenWf(f2, blocks);
    hide OneWord, Partial;
    forall p | 128 <= p < 153 ensures f2[p] == f[p - 112] {
      assert f2[p] == Backup(f2)[p - 128] == App(f, BACKUP_BLOCKS)[p - 128];
    }
    assert forall p :: 0 <= p < 256 && p != 241 ==> f'[p] == if 16 <= p < 16 + |blocks| then blocks[p - 16] else f2[p];
  }

  lemma OneWordIs(w: Word)
    ensures OneWord(Partial([w], 1), w)
  {
  }

  lemma RecoveredPages(f: Flash)
    requires Wf(f)
    ensures RecoveredTo(f, Recovered(f))
  {
    OneWordIs(NORMAL);
    hide OneWord, Partial;
    forall p | 16 <= p < 41 ensures Recovered(f)[p] == f[p + 112] {
      assert Recovered(f)[p] == Backup(f)[p - 16];
    }
    assert forall p :: 0 <= p < 256 && p != 241 && !(16 <= p < 41) ==> Recovered(f)[p] == f[p];
  }

  /** A page with `w` in its first word, and erased behind it. */
  predicate OneWord(page: Page, w: Word) { |page| == 512 && page[0] == w && forall i :: 1 <= i < 512 ==> page[i] == 0xFFFF_FFFF }

  /** After a rollback the backup is where the application starts, and page 241 says that it is a normal one; no other
      page has changed. */
  ghost predicate RecoveredTo(f: Flash, f': Flash) {
    && Wf(f) && Wf(f')
    && forall p :: 0 <= p < 256 ==> if p == 241 then OneWord(f'[p], 1000) else f'[p] == if 16 <= p < 41 then f[p + 112] else f[p]
  }

  /** The two flashes agree outside the pages `lo` to `hi` and page `x`. */
  predicate SameBut(f: Flash, f': Flash, lo: int, hi: int, x: int) {
    |f'| == |f| && forall p :: 0 <= p < |f| && !(lo <= p < hi) && p != x ==> f'[p] == f[p]
  }

  /** Every state left is `f` with page `p` erased and programmed up to some word of `ws`. */
  ghost predicate Left(log: seq<Flash>, from: int, to: int, f: Flash, p: nat, ws: Page) {
    && Wf(f) && p < PAGE_NUM && |ws| <= PAGE_WORDS && 0 <= from <= to <= |log|
    && forall i :: from <= i < to ==> exists k: nat :: k <= |ws| && log[i] == f[p := Partial(ws, k)]
  }

  ghost predicate AllSameOutside(log: seq<Flash>, from: int, to: int, f: Flash, lo: int, hi: int) {
    0 <= from <= to <= |log| && forall i :: from <= i < to ==> Wf(log[i]) && SameOutside(f, log[i], lo, hi)
  }

  lemma LeftMore(log: seq<Flash>, from: nat, f: Flash, p: nat, ws: Page, k: nat)
    requires from <= |log| && k <= |ws| <= PAGE_WORDS && p < PAGE_NUM && Wf(f)
    requires Left(log, from, |log|, f, p, ws)
    ensures Left(log + [f[p := Partial(ws, k)]], from, |log| + 1, f, p, ws)
  {
    var log' := log + [f[p := Partial(ws, k)]];
    forall i | from <= i < |log'| ensures exists k: nat :: k <= |ws| && log'[i] == f[p := Partial(ws, k)] {
      if i < |log| {
        assert log'[i] == log[i];
      } else {
        assert k <= |ws| && log'[i] == f[p := Partial(ws, k)];
      }
    }
  }

  lemma PartialStart(ws: Page)
    requires |ws| <= PAGE_WORDS
    ensures Partial(ws, 0) == BLANK_PAGE
  {
  }

  /** Programming the next word onto an erased word stores it. */
  lemma ProgramStep(f: Flash, p: nat, ws: Page, i: nat)
    requires Wf(f) && p < PAGE_NUM && i < |ws| <= PAGE_WORDS
    ensures Programmed(f[p := Partial(ws, i)], p, i, ws[i]) == f[p := Partial(ws, i + 1)]
  {
    assert Partial(ws, i)[i] == ERASED;
    AndErased(ws[i]);
    assert Partial(ws, i)[i := ws[i]] == Partial(ws, i + 1);
  }

  lemma AndErased(w: Word)
    ensures ERASED & w == w
  {
  }

  lemma PartialWhole(ws: Page)
    requires |ws| == PAGE_WORDS
    ensures Partial(ws, PAGE_WORDS) == ws
  {
  }
}
