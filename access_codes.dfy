/** The access-code page of the React application: its usage counters, the code it
    creates (typed, or generated from the year and a random base-36 text), the rule
    that only unused codes can be deleted, and its create and delete handlers. */
module AccessCodes {
  import opened Wrappers
  import opened Auth
  import Text
  import Records

  /** The number of codes marked used. */
  function CountUsed(codes: seq<SecretCode>): (k: nat)
    ensures k <= |codes|
    ensures k == 0 <==> forall i :: 0 <= i < |codes| ==> !codes[i].isUsed
    ensures k == |codes| <==> forall i :: 0 <= i < |codes| ==> codes[i].isUsed
  {
    if codes == [] then 0
    else CountUsed(codes[..|codes| - 1]) + (if codes[|codes| - 1].isUsed then 1 else 0)
  }

  /** The number of codes still free. */
  function CountUnused(codes: seq<SecretCode>): nat {
    if codes == [] then 0
    else CountUnused(codes[..|codes| - 1]) + (if codes[|codes| - 1].isUsed then 0 else 1)
  }

  datatype Stats = Stats(total: nat, used: nat, available: int)

  /** `getUsageStats`: available is total minus used, which is exactly the number of
      unused codes. */
  function UsageStats(codes: seq<SecretCode>): (s: Stats)
    ensures s.total == |codes| && s.used == CountUsed(codes)
    ensures s.used + s.available == s.total
    ensures s.available == CountUnused(codes)
  {
    UsedPlusUnused(codes);
    var total := |codes|;
    var used := CountUsed(codes);
    Stats(total, used, total - used)
  }

  lemma {:induction false} UsedPlusUnused(codes: seq<SecretCode>)
    ensures CountUsed(codes) + CountUnused(codes) == |codes|
  {
    if codes != [] {
      UsedPlusUnused(codes[..|codes| - 1]);
    }
  }

  /** Marking one unused code after a sign-up moves one code from available to used.
      (The codes' ids are unique.) */
  lemma MarkMovesOne(codes: seq<SecretCode>, k: int, userId: string)
    requires UniqueCodeIds(codes) && 0 <= k < |codes| && !codes[k].isUsed
    ensures CountUsed(MarkUsed(codes, codes[k].id, userId)) == CountUsed(codes) + 1
  {
    MarkOnlyOne(codes, k, codes[k].id, userId);
  }

  lemma {:induction false} MarkOnlyOne(codes: seq<SecretCode>, k: int, id: Records.Id, userId: string)
    requires 0 <= k < |codes| && !codes[k].isUsed && codes[k].id == id
    requires forall i :: 0 <= i < |codes| && i != k ==> codes[i].id != id
    ensures CountUsed(MarkUsed(codes, id, userId)) == CountUsed(codes) + 1
    decreases |codes|
  {
    var n := |codes| - 1;
    var m := MarkUsed(codes, id, userId);
    var front := codes[..n];
    assert m[..n] == MarkUsed(front, id, userId);
    if k == n {
      UnmarkedFront(front, id, userId);
    } else {
      MarkOnlyOne(front, k, id, userId);
    }
  }

  /** Marking an id no row has changes nothing. */
  lemma UnmarkedFront(codes: seq<SecretCode>, id: Records.Id, userId: string)
    requires forall i :: 0 <= i < |codes| ==> codes[i].id != id
    ensures MarkUsed(codes, id, userId) == codes
  {
  }

  /** `generateRandomCode`: "MONGA", the year, "_" and characters 2 to 8 of the random
      base-36 text in upper case. */
  function GenerateRandomCode(year: int, random36: string): (r: string)
    ensures |r| >= 7 && r[..5] == "MONGA"
    ensures r == "MONGA" + Text.IntToDecimal(year) + "_" + r[|r| - |Text.Substring(random36, 2, 8)|..]
    ensures r[|r| - |Text.Substring(random36, 2, 8)|..] == Text.ToUpper(Text.Substring(random36, 2, 8))
    ensures forall i :: 0 <= i < |r| ==> !('a' <= r[i] <= 'z')
  {
    var random := Text.ToUpper(Text.Substring(random36, 2, 8));
    DecimalNoLower(year);
    CodeParts(Text.IntToDecimal(year), random);
    "MONGA" + Text.IntToDecimal(year) + "_" + random
  }

  /** The decimal form of a number holds digits and perhaps a minus sign. */
  lemma DecimalNoLower(n: int)
    ensures var d := Text.IntToDecimal(n); forall i :: 0 <= i < |d| ==> !('a' <= d[i] <= 'z')
  {
    var t := Text.NatToDecimal(if n < 0 then -n else n);
    if n < 0 {
      var d := Text.IntToDecimal(n);
      assert d == "-" + t;
      forall i | 0 <= i < |d| ensures !('a' <= d[i] <= 'z') {
        if i > 0 {
          assert d[i] == t[i - 1];
        }
      }
    }
  }

  lemma CodeParts(year10: string, random: string)
    requires forall i :: 0 <= i < |year10| ==> !('a' <= year10[i] <= 'z')
    requires forall i :: 0 <= i < |random| ==> !('a' <= random[i] <= 'z')
    ensures var r := "MONGA" + year10 + "_" + random;
            |r| >= 6 + |random| && r[..5] == "MONGA" && r[|r| - |random|..] == random &&
            forall i :: 0 <= i < |r| ==> !('a' <= r[i] <= 'z')
  {
    var head := "MONGA" + year10 + "_";
    var r := head + random;
    assert r[..5] == head[..5] == "MONGA";
    assert r[|head|..] == random;
    forall i | 0 <= i < |r| ensures !('a' <= r[i] <= 'z') {
      if i < 5 {
        assert r[i] == "MONGA"[i];
      } else if i < 5 + |year10| {
        assert r[i] == year10[i - 5];
      } else if i >= |head| {
        assert r[i] == random[i - |head|];
      }
    }
  }

  /** The text field upper-cases what is typed, ASCII letters only. */
  function TypedCode(input: string): (r: string)
    ensures |r| == |input|
    ensures forall i :: 0 <= i < |input| ==> r[i] == Text.UpperChar(input[i])
    ensures forall i :: 0 <= i < |r| ==> !('a' <= r[i] <= 'z')
  {
    Text.ToUpper(input)
  }

  /** `newCode || generateRandomCode()`: an empty field creates the generated code. */
  function CodeToCreate(newCode: string, generated: string): (r: string)
    ensures newCode != "" ==> r == newCode
    ensures newCode == "" ==> r == generated
  {
    if newCode != "" then newCode else generated
  }

  /** Whatever is typed, the created code has no lower-case letter, and typing an
      already upper-case code keeps it as it is. */
  lemma CreatedCodeIsUpperCase(input: string, year: int, random36: string)
    ensures var r := CodeToCreate(TypedCode(input), GenerateRandomCode(year, random36));
            forall i :: 0 <= i < |r| ==> !('a' <= r[i] <= 'z')
    ensures TypedCode(TypedCode(input)) == TypedCode(input)
  {
    Text.ToUpperIdempotent(input);
  }

  /** The delete button is shown only for a code no one has used. */
  predicate CanDelete(c: SecretCode) {
    !c.isUsed
  }

  /** A code that a sign-up marked is no longer offered for deletion; every other row
      keeps its button. */
  lemma SignedUpCodeNotDeletable(codes: seq<SecretCode>, id: Records.Id, userId: string)
    ensures forall i :: 0 <= i < |codes| ==>
              (CanDelete(MarkUsed(codes, id, userId)[i]) <==> codes[i].id != id && CanDelete(codes[i]))
  {
  }

  /** The insert's answer: accepted, refused as a duplicate (Postgres error 23505), or
      refused for any other reason. */
  datatype InsertOutcome = Inserted | Duplicate | Failed

  const CreatedAlert := "Código criado com sucesso!"
  const DuplicateAlert := "Este código já existe. Tente outro."
  const CreateErrorAlert := "Erro ao criar código"

  /** `loadCodes`: the rows, newest first as the database returns them, or none on error. */
  function Loaded(rows: Option<seq<SecretCode>>): seq<SecretCode> {
    if rows.Some? then rows.value else []
  }

  /** The page's list, the dialog and its text field. */
  class CodesPage {
    var codes: seq<SecretCode>
    var dialogOpen: bool
    var newCode: string

    constructor()
      ensures codes == [] && !dialogOpen && newCode == ""
    {
      codes, dialogOpen, newCode := [], false, "";
    }

    /** Typing into the field. */
    method Type(input: string)
      modifies this
      ensures newCode == TypedCode(input) && codes == old(codes) && dialogOpen == old(dialogOpen)
    {
      newCode := TypedCode(input);
    }

    /** `handleCreateCode`: inserts the code to create; on success closes the dialog,
        clears the field and reloads; a duplicate or another failure only alerts. */
    method HandleCreateCode(generated: string, outcome: InsertOutcome, reloaded: Option<seq<SecretCode>>)
      returns (sent: string, alert: string)
      modifies this
      ensures sent == CodeToCreate(old(newCode), generated)
      ensures outcome == Inserted ==> alert == CreatedAlert && !dialogOpen && newCode == "" && codes == Loaded(reloaded)
      ensures outcome == Duplicate ==> alert == DuplicateAlert
      ensures outcome == Failed ==> alert == CreateErrorAlert
      ensures outcome != Inserted ==> codes == old(codes) && dialogOpen == old(dialogOpen) && newCode == old(newCode)
    {
      sent := CodeToCreate(newCode, generated);
      match outcome {
        case Duplicate =>
          alert := DuplicateAlert;
        case Failed =>
          alert := CreateErrorAlert;
        case Inserted =>
          dialogOpen, newCode := false, "";
          codes := Loaded(reloaded);
          alert := CreatedAlert;
      }
    }

    /** `handleDeleteCode`: nothing unless confirmed; a failed delete keeps the list; a
        successful one reloads it. */
    method HandleDeleteCode(id: Records.Id, confirmed: bool, ok: bool, reloaded: Option<seq<SecretCode>>) returns (deleted: bool)
      modifies this
      ensures deleted <==> confirmed && ok
      ensures deleted ==> codes == Loaded(reloaded)
      ensures !deleted ==> codes == old(codes)
      ensures dialogOpen == old(dialogOpen) && newCode == old(newCode)
    {
      deleted := false;
      if !confirmed {
        return;
      }
      if !ok {
        return;
      }
      codes := Loaded(reloaded);
      deleted := true;
    }
  }
}
