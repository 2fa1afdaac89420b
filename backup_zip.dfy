/**
 * `generate_unique_backup_filename`: try `{folder}_1.zip`, `{folder}_2.zip`,
 * ... in the backup folder and return the first path that does not exist.
 * The paths that exist are a finite set given as input.
 */
module BackupZip {
  import opened Strings
  import opened Paths

  /** `f'{folder_name}_{number}.zip'`. */
  function BackupFileName(folderName: string, number: nat): string {
    folderName + "_" + NatToDigits(number) + ".zip"
  }

  /** The path tried for `number`: the backup name under the backup folder, from the folder's last component. */
  function Candidate(folder: string, backupFolder: string, number: nat): string {
    JoinPath(backupFolder, BackupFileName(BaseName(folder), number))
  }

  /** The name for `number` ends in the digits of `number` and `.zip`. */
  lemma BackupFileNameParts(folderName: string, number: nat)
    ensures var name := BackupFileName(folderName, number);
            var digits := NatToDigits(number);
            && |name| == |folderName| + 1 + |digits| + 4
            && name[..|folderName| + 1] == folderName + "_"
            && name[|folderName| + 1..|name| - 4] == digits
            && name[|name| - 4..] == ".zip"
  {
  }

  /**
   * The number reads back from the name: the text after the last `_` and
   * before `.zip` is the decimal rendering of `number`, and what comes before
   * that `_` is the folder name.
   */
  lemma BackupNumberReadsBack(folderName: string, number: nat)
    ensures var name := BackupFileName(folderName, number);
            var stem := name[..|name| - 4];
            var i := LastIndex(stem, '_');
            && i == |folderName|
            && stem[..i] == folderName
            && AllDigits(stem[i + 1..])
            && DigitsValue(stem[i + 1..]) == number
  {
    var name := BackupFileName(folderName, number);
    var digits := NatToDigits(number);
    BackupFileNameParts(folderName, number);
    var stem := name[..|name| - 4];
    assert stem == folderName + "_" + digits;
    assert stem[|folderName|] == '_';
    assert forall j :: |folderName| < j < |stem| ==> stem[j] == digits[j - |folderName| - 1];
    assert stem[|folderName| + 1..] == digits;
    NatToDigitsRoundTrip(number);
  }

  /** Different numbers give different names. */
  lemma BackupFileNameInjective(folderName: string, a: nat, b: nat)
    requires BackupFileName(folderName, a) == BackupFileName(folderName, b)
    ensures a == b
  {
    BackupNumberReadsBack(folderName, a);
    BackupNumberReadsBack(folderName, b);
  }

  /** Different numbers give different paths. */
  lemma CandidateInjective(folder: string, backupFolder: string, a: nat, b: nat)
    requires Candidate(folder, backupFolder, a) == Candidate(folder, backupFolder, b)
    ensures a == b
  {
    var n := BaseName(folder);
    var x, y := BackupFileName(n, a), BackupFileName(n, b);
    assert x[0] != '/' && y[0] != '/' by {
      assert '/' !in n;
      assert x[0] == (n + "_")[0] && y[0] == (n + "_")[0];
    }
    JoinPathInjective(backupFolder, x, y);
    BackupFileNameInjective(n, a, b);
  }

  /** Two folders with the same last component get the same candidates: the rest of the path plays no part. */
  lemma CandidateUsesLastComponent(folder1: string, folder2: string, backupFolder: string, number: nat)
    requires BaseName(folder1) == BaseName(folder2)
    ensures Candidate(folder1, backupFolder, number) == Candidate(folder2, backupFolder, number)
  {
  }

  /** The candidate is named after the folder and the number, inside the backup folder. */
  lemma CandidateInBackupFolder(folder: string, backupFolder: string, number: nat)
    ensures BaseName(Candidate(folder, backupFolder, number)) == BackupFileName(BaseName(folder), number)
  {
    var name := BackupFileName(BaseName(folder), number);
    assert '/' !in name;
    BaseNameOfJoin(backupFolder, name);
  }

  /**
   * The search: numbers from 1 up, returning the first path not in
   * `existing`. It always ends because the candidates tried so far are
   * distinct members of the finite set `existing`.
   */
  method GenerateUniqueBackupFilename(folder: string, backupFolder: string, existing: set<string>)
    returns (path: string, ghost number: nat)
    ensures number >= 1 && path == Candidate(folder, backupFolder, number)
    ensures path !in existing
    ensures forall m :: 1 <= m < number ==> Candidate(folder, backupFolder, m) in existing
    ensures number <= |existing| + 1
  {
    var folderName := BaseName(folder);
    var n: nat := 1;
    ghost var seen: set<string> := {};
    while true
      invariant n >= 1
      invariant forall m :: 1 <= m < n ==> Candidate(folder, backupFolder, m) in existing
      invariant seen <= existing && |seen| == n - 1
      invariant forall k :: k >= n ==> Candidate(folder, backupFolder, k) !in seen
      decreases |existing| - |seen|
    {
      var zipFilename := BackupFileName(folderName, n);
      var backupZipPath := JoinPath(backupFolder, zipFilename);
      assert backupZipPath == Candidate(folder, backupFolder, n);
      SubsetSize(seen, existing);
      if backupZipPath !in existing {
        return backupZipPath, n;
      }
      forall k | k >= n + 1
        ensures Candidate(folder, backupFolder, k) != backupZipPath
      {
        if Candidate(folder, backupFolder, k) == backupZipPath {
          CandidateInjective(folder, backupFolder, k, n);
        }
      }
      seen := seen + {backupZipPath};
      n := n + 1;
      SubsetSize(seen, existing);
    }
  }

  /** A subset is no larger than the set. */
  lemma {:induction false} SubsetSize<T>(a: set<T>, b: set<T>)
    requires a <= b
    ensures |a| <= |b|
  {
    if a != {} {
      var x :| x in a;
      SubsetSize(a - {x}, b - {x});
    }
  }
}
