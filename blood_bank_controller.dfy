/** Adding a blood bank under a new name, and listing the banks by name. */
module BloodBankController {
  import opened Common
  import opened Strings
  import opened Sorting
  import opened BloodBankModel

  /** The reply to `addBloodBank`: the name check first, then validation. */
  function AddBankReply(banks: seq<BloodBank>, id: Id, f: BankForm): (r: Reply<BloodBank>)
    ensures NameTaken(banks, f.name) ==> r == Failure(400, "Blood bank already exists in the database")
    ensures !NameTaken(banks, f.name) && !BankFormComplete(f) ==> r == Failure(500, "Failed to add blood bank")
    ensures r.Success? <==> !NameTaken(banks, f.name) && BankFormComplete(f)
    ensures r.Success? ==> r.code == 201 && r.value == BuildBank(id, f).doc
  {
    if NameTaken(banks, f.name) then Failure(400, "Blood bank already exists in the database")
    else match BuildBank(id, f)
      case Rejected(_) => Failure(500, "Failed to add blood bank")
      case Stored(b) => Success(201, b)
  }

  /**
   * `addBloodBank`. `id` is the fresh `_id` of the new document. On success the
   * store gains exactly the new bank; otherwise it is unchanged.
   */
  method AddBloodBank(store: BankCollection, id: Id, f: BankForm) returns (resp: Reply<BloodBank>)
    requires store.Valid() && !BankIdTaken(store.banks, id)
    modifies store
    ensures store.Valid()
    ensures resp == AddBankReply(old(store.banks), id, f)
    ensures resp.Success? ==> store.banks == old(store.banks) + [resp.value]
    ensures resp.Failure? ==> store.banks == old(store.banks)
  {
    if NameTaken(store.banks, f.name) {
      return Failure(400, "Blood bank already exists in the database");
    }
    var built := BuildBank(id, f);
    if built.Rejected? {
      return Failure(500, "Failed to add blood bank");
    }
    var bank := built.doc;
    assert !NameTaken(store.banks, Some(bank.name)) by {
      TrimIdempotent(f.name.value);
    }
    store.Insert(bank);
    resp := Success(201, bank);
  }

  function BankName(b: BloodBank): string {
    b.name
  }

  /** `getBloodBanks`: every stored bank, each once, in ascending name order. */
  function GetBloodBanks(banks: seq<BloodBank>): (r: Reply<seq<BloodBank>>)
    ensures r.Success? && r.code == 200
    ensures multiset(r.value) == multiset(banks)
    ensures SortedBy(r.value, BankName)
  {
    SortByPermutes(banks, BankName);
    SortBySorted(banks, BankName);
    Success(200, SortBy(banks, BankName))
  }

  /** As names are unique, the listing ascends strictly. */
  lemma ListingIsStrict(banks: seq<BloodBank>)
    requires UniqueBanks(banks)
    ensures StrictlySortedBy(GetBloodBanks(banks).value, BankName)
  {
    SortByStrict(banks, BankName);
  }

  /**
   * A request without a name is refused as a duplicate once any bank is
   * stored, and fails validation on an empty store.
   */
  lemma MissingNameReply(banks: seq<BloodBank>, id: Id, f: BankForm)
    requires f.name.None?
    ensures |banks| > 0 ==> AddBankReply(banks, id, f) == Failure(400, "Blood bank already exists in the database")
    ensures |banks| == 0 ==> AddBankReply(banks, id, f) == Failure(500, "Failed to add blood bank")
  {
  }

  /** A bank added under a new name shows up in the next listing. */
  lemma AddedBankIsListed(banks: seq<BloodBank>, id: Id, f: BankForm)
    requires AddBankReply(banks, id, f).Success?
    ensures AddBankReply(banks, id, f).value in GetBloodBanks(banks + [AddBankReply(banks, id, f).value]).value
  {
    var b := AddBankReply(banks, id, f).value;
    SortByPermutes(banks + [b], BankName);
    assert b in multiset(banks + [b]);
  }
}
