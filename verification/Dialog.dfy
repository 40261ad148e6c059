/** The option table of one dialog: ids minted for the wire, and the reply they resolve to. */
module Dialog {
  import opened Wrappers

  type OptionId = string

  datatype Kind = AllowOnce | AllowAlways | RejectOnce

  datatype PermissionOption = PermissionOption(id: OptionId, name: string, kind: Kind)

  datatype UiKind = Confirm | Input | Select | Editor

  datatype UiReply = ConfirmReply(yes: bool) | TextReply(text: Option<string>)

  /** Any outcome but a selection is a cancellation here. */
  datatype Outcome = Selected(id: OptionId) | Cancelled

  const CHOICE_OPTION_PREFIX := "choice-"
  const CONFIRM_YES_ID := "yes"
  const CONFIRM_YES_NAME := "Yes"
  const CONFIRM_NO_ID := "no"
  const CONFIRM_NO_NAME := "No"

  const PERMISSION_DIALOG_OPTIONS: seq<string> := ["Allow Once", "Allow Always", "Reject", "Reject with Reason"]

  const PERMISSION_DIALOG_SCRIPT_OPTIONS: seq<string> :=
    ["Allow Once", "Allow Always", "Reject", "Reject with Reason", "Reject All From This Script"]

  // ---------------------------------------------------------------------------- numerals

  function Digit(n: nat): char
    requires n < 10
  {
    "0123456789"[n]
  }

  function Decimal(n: nat): string {
    if n < 10 then [Digit(n)] else Decimal(n / 10) + [Digit(n % 10)]
  }

  function DigitValue(c: char): nat {
    if '0' <= c <= '9' then c as nat - '0' as nat else 0
  }

  function DecimalValue(s: string): nat {
    if s == [] then 0 else 10 * DecimalValue(s[..|s| - 1]) + DigitValue(s[|s| - 1])
  }

  /** Reading a numeral back gives its number, so no two numbers share one. */
  lemma {:induction false} DecimalRoundTrip(n: nat)
    ensures DecimalValue(Decimal(n)) == n
  {
    if n < 10 {
      assert [Digit(n)][..0] == [];
    } else {
      DecimalRoundTrip(n / 10);
      assert (Decimal(n / 10) + [Digit(n % 10)])[..|Decimal(n / 10)|] == Decimal(n / 10);
    }
  }

  function ChoiceId(index: nat): OptionId {
    CHOICE_OPTION_PREFIX + Decimal(index)
  }

  lemma ChoiceIdsAreDistinct(i: nat, j: nat)
    requires ChoiceId(i) == ChoiceId(j)
    ensures i == j
  {
    var n := |CHOICE_OPTION_PREFIX|;
    assert ChoiceId(i)[n..] == Decimal(i) && ChoiceId(j)[n..] == Decimal(j);
    DecimalRoundTrip(i);
    DecimalRoundTrip(j);
  }

  predicate IsNumeral(s: string) {
    && s != [] && (|s| > 1 ==> s[0] != '0')
    && forall i | 0 <= i < |s| :: '0' <= s[i] <= '9'
  }

  lemma {:induction false} DecimalIsNumeral(n: nat)
    ensures IsNumeral(Decimal(n)) && (n > 0 ==> Decimal(n)[0] != '0')
  {
    if n >= 10 {
      DecimalIsNumeral(n / 10);
      assert Decimal(n)[0] == Decimal(n / 10)[0];
    }
  }

  lemma {:induction false} NumeralIsDecimal(s: string)
    requires IsNumeral(s)
    ensures Decimal(DecimalValue(s)) == s && (s[0] != '0' ==> DecimalValue(s) > 0)
  {
    var early, last := s[..|s| - 1], s[|s| - 1];
    assert Digit(DigitValue(last)) == last;
    if early == [] {
      assert s == [last];
    } else {
      NumeralIsDecimal(early);
      assert early[0] == s[0] && s == early + [last];
      var n := DecimalValue(early);
      assert DecimalValue(s) / 10 == n && DecimalValue(s) % 10 == DigitValue(last);
    }
  }

  /** The id of a position is the prefix and the one numeral, without leading zeros, of its number. */
  lemma ChoiceIdIs(index: nat, digits: string)
    ensures ChoiceId(index) == "choice-" + digits <==> IsNumeral(digits) && DecimalValue(digits) == index
  {
    DecimalRoundTrip(index);
    DecimalIsNumeral(index);
    if IsNumeral(digits) {
      NumeralIsDecimal(digits);
    }
    assert ("choice-" + digits)[7..] == digits && ChoiceId(index)[7..] == Decimal(index);
  }

  // ----------------------------------------------------------------------------- the table

  function PermissionOptionKind(name: string): Kind {
    if name == "Allow Always" then AllowAlways
    else if name == "Reject" || name == "Reject with Reason" || name == "Reject All From This Script" then RejectOnce
    else AllowOnce
  }

  predicate IsPermissionDialog(options: seq<string>) {
    options == PERMISSION_DIALOG_OPTIONS || options == PERMISSION_DIALOG_SCRIPT_OPTIONS
  }

  class DialogOptionTable {
    var table: seq<(OptionId, string)>
    var advertised: seq<PermissionOption>

    /** Each option in order, under the id of its position; the kinds only of the known dialogs. */
    constructor Mint(options: seq<string>)
      ensures table == Minted(options)
      ensures |advertised| == |options|
      ensures forall i | 0 <= i < |options| ::
                advertised[i] == PermissionOption(table[i].0, table[i].1,
                                                  if IsPermissionDialog(options) then PermissionOptionKind(options[i])
                                                  else AllowOnce)
    {
      table, advertised := [], [];
      new;
      var permissionDialog := IsPermissionDialog(options);
      for index := 0 to |options|
        invariant table == Minted(options[..index])
        invariant |advertised| == index
        invariant forall i | 0 <= i < index ::
                    advertised[i] == PermissionOption(ChoiceId(i), options[i],
                                                      if IsPermissionDialog(options) then PermissionOptionKind(options[i])
                                                      else AllowOnce)
      {
        var name := options[index];
        var id := ChoiceId(index);
        var kind := if permissionDialog then PermissionOptionKind(name) else AllowOnce;
        advertised := advertised + [PermissionOption(id, name, kind)];
        table := table + [(id, name)];
      }
      assert options[..|options|] == options;
    }

    constructor ForConfirm()
      ensures table == Confirmation() == [("yes", "Yes"), ("no", "No")]
      ensures advertised == [PermissionOption("yes", "Yes", AllowOnce), PermissionOption("no", "No", RejectOnce)]
    {
      table := [(CONFIRM_YES_ID, CONFIRM_YES_NAME), (CONFIRM_NO_ID, CONFIRM_NO_NAME)];
      advertised := [PermissionOption(CONFIRM_YES_ID, CONFIRM_YES_NAME, AllowOnce),
                     PermissionOption(CONFIRM_NO_ID, CONFIRM_NO_NAME, RejectOnce)];
    }

    /** A reply names an entry of the table that was selected; all else is denied. */
    method ReplyFor(kind: UiKind, outcome: Outcome) returns (reply: UiReply)
      ensures reply == ReplyOf(kind, table, outcome)
      ensures reply == ConfirmReply(true)
              ==> kind == Confirm && outcome.Selected? && (outcome.id, "Yes") in table
      ensures reply.TextReply? && reply.text.Some?
              ==> kind != Confirm && outcome.Selected? && (outcome.id, reply.text.value) in table
      ensures (outcome.Cancelled? || forall e | e in table :: e.0 != outcome.id)
              ==> reply == if kind == Confirm then ConfirmReply(false) else TextReply(None)
    {
      DenialsAre(kind, table, outcome);
      if outcome.Selected? {
        for i := 0 to |table|
          invariant Choose(table, outcome) == Choose(table[i..], outcome)
        {
          assert table[i..][1..] == table[i + 1..];
          if table[i].0 == outcome.id {
            var name := table[i].1;
            return if kind.Confirm? then ConfirmReply(name == CONFIRM_YES_NAME) else TextReply(Some(name));
          }
        }
      }
      reply := DenyDefault(kind);
    }
  }

  function Minted(options: seq<string>): seq<(OptionId, string)> {
    seq(|options|, i requires 0 <= i < |options| => (ChoiceId(i), options[i]))
  }

  function Confirmation(): seq<(OptionId, string)> {
    [(CONFIRM_YES_ID, CONFIRM_YES_NAME), (CONFIRM_NO_ID, CONFIRM_NO_NAME)]
  }

  function Choose(table: seq<(OptionId, string)>, outcome: Outcome): Option<string> {
    if outcome.Cancelled? || table == [] then None
    else if table[0].0 == outcome.id then Some(table[0].1)
    else Choose(table[1..], outcome)
  }

  function DenyDefault(kind: UiKind): UiReply {
    if kind.Confirm? then ConfirmReply(false) else TextReply(None)
  }

  function ReplyOf(kind: UiKind, table: seq<(OptionId, string)>, outcome: Outcome): UiReply {
    match Choose(table, outcome)
    case None => DenyDefault(kind)
    case Some(name) => if kind.Confirm? then ConfirmReply(name == CONFIRM_YES_NAME) else TextReply(Some(name))
  }

  /** The hint of each option: a rejection never reads as an approval, in the known dialogs only. */
  lemma KindsAre(options: seq<string>, name: string)
    ensures IsPermissionDialog(options)
            <==> || options == ["Allow Once", "Allow Always", "Reject", "Reject with Reason"]
                 || options == ["Allow Once", "Allow Always", "Reject", "Reject with Reason",
                                "Reject All From This Script"]
    ensures IsPermissionDialog(options) && name in options
            ==> && (PermissionOptionKind(name) == RejectOnce <==> |name| >= 6 && name[..6] == "Reject")
                && (PermissionOptionKind(name) == AllowAlways <==> name == "Allow Always")
  {
    assert "Reject"[..6] == "Reject" && "Reject with Reason"[..6] == "Reject";
    assert "Reject All From This Script"[..6] == "Reject";
    assert "Allow Once"[..6] == "Allow " && "Allow Always"[..6] == "Allow ";
    assert "Allow "[0] == 'A' && "Reject"[0] == 'R';
  }

  // -------------------------------------------------------------------------- exact inverse

  lemma {:induction false} ChooseFindsEntry(table: seq<(OptionId, string)>, i: nat)
    requires i < |table| && forall j | 0 <= j < i :: table[j].0 != table[i].0
    ensures Choose(table, Selected(table[i].0)) == Some(table[i].1)
  {
    if i > 0 {
      ChooseFindsEntry(table[1..], i - 1);
    }
  }

  lemma {:induction false} ChooseMisses(table: seq<(OptionId, string)>, id: OptionId)
    requires forall j | 0 <= j < |table| :: table[j].0 != id
    ensures Choose(table, Selected(id)).None?
  {
    if table != [] {
      ChooseMisses(table[1..], id);
    }
  }

  lemma {:induction false} ChosenIsInTable(table: seq<(OptionId, string)>, outcome: Outcome)
    ensures Choose(table, outcome).Some?
            ==> outcome.Selected? && (outcome.id, Choose(table, outcome).value) in table
  {
    if table != [] && outcome.Selected? && table[0].0 != outcome.id {
      ChosenIsInTable(table[1..], outcome);
    }
  }

  /** What leaves a dialog is an entry that was selected, or the denial of its kind. */
  lemma DenialsAre(kind: UiKind, table: seq<(OptionId, string)>, outcome: Outcome)
    ensures ReplyOf(kind, table, outcome) == ConfirmReply(true)
            ==> kind == Confirm && outcome.Selected? && (outcome.id, "Yes") in table
    ensures ReplyOf(kind, table, outcome).TextReply? && ReplyOf(kind, table, outcome).text.Some?
            ==> && kind != Confirm && outcome.Selected?
                && (outcome.id, ReplyOf(kind, table, outcome).text.value) in table
    ensures outcome.Cancelled? || (forall e | e in table :: e.0 != outcome.id)
            ==> ReplyOf(kind, table, outcome) == if kind == Confirm then ConfirmReply(false) else TextReply(None)
  {
    ChosenIsInTable(table, outcome);
  }

  /** For a list of any length: the ids are pairwise distinct, and the i-th id is answered by option i. */
  lemma MintedIdsAreInverse(options: seq<string>, i: nat)
    requires i < |options|
    ensures forall j | 0 <= j < |options| && j != i :: Minted(options)[j].0 != Minted(options)[i].0
    ensures ReplyOf(Select, Minted(options), Selected(ChoiceId(i))) == TextReply(Some(options[i]))
  {
    var table := Minted(options);
    forall j | 0 <= j < |options| && j != i
      ensures table[j].0 != table[i].0
    {
      if ChoiceId(j) == ChoiceId(i) {
        ChoiceIdsAreDistinct(i, j);
      }
    }
    ChooseFindsEntry(table, i);
  }

  /** Any other outcome is denied: exactly the ids this dialog minted resolve. */
  lemma OnlyMintedIdsResolve(kind: UiKind, options: seq<string>, outcome: Outcome)
    ensures Choose(Minted(options), outcome).Some?
            <==> outcome.Selected? && exists i: nat :: i < |options| && ChoiceId(i) == outcome.id
    ensures (forall i: nat | i < |options| :: outcome != Selected(ChoiceId(i)))
            ==> ReplyOf(kind, Minted(options), outcome)
                == if kind == Confirm then ConfirmReply(false) else TextReply(None)
  {
    var table := Minted(options);
    if outcome.Selected? {
      if i: nat :| i < |options| && ChoiceId(i) == outcome.id {
        MintedIdsAreInverse(options, i);
        ChooseFindsEntry(table, i);
      } else {
        ChooseMisses(table, outcome.id);
      }
    }
  }

  /** A confirm dialog answers yes to its own yes id and to nothing else. */
  lemma ConfirmOnlyOnYes(outcome: Outcome)
    ensures ReplyOf(Confirm, Confirmation(), outcome) == ConfirmReply(outcome == Selected("yes"))
  {
    var table := Confirmation();
    if outcome == Selected(CONFIRM_YES_ID) {
      ChooseFindsEntry(table, 0);
    } else if outcome == Selected(CONFIRM_NO_ID) {
      ChooseFindsEntry(table, 1);
    } else if outcome.Selected? {
      ChooseMisses(table, outcome.id);
    }
  }
}
