/**
 * What the Streamlit pages of aes.py do around the table: the "Enkripsi Data" page encrypts
 * the four fields and stores them only when all five inputs are filled in; the edit form of
 * "Lihat Data" and the "Dekripsi Data" page decrypt a row's four fields inside one `try`, so a
 * row is shown whole or not at all. Widgets and page layout are not modelled; the IVs that
 * `get_random_bytes` would draw, one per field, are parameters.
 */
module App {
  import opened Wrappers
  import Cbc
  import FieldCipher
  import opened Database

  /** The four IVs drawn for one record, one per field. */
  datatype FieldIvs = FieldIvs(name: Cbc.Block, nik: Cbc.Block, address: Cbc.Block, phone: Cbc.Block)

  /** The page's write guard: all five inputs are true, and a Python string is true when it is not empty. */
  predicate AllFilled(f: Fields, key: string) {
    f.name != "" && f.nik != "" && f.address != "" && f.phone != "" && key != ""
  }

  /** The page encrypts each of the four fields separately under the same passphrase, each with its own IV. */
  function EncryptFields(c: Cbc.BlockCipher, f: Fields, key: string, ivs: FieldIvs): Fields
  {
    Fields(
      FieldCipher.Encrypt(c, f.name, key, ivs.name),
      FieldCipher.Encrypt(c, f.nik, key, ivs.nik),
      FieldCipher.Encrypt(c, f.address, key, ivs.address),
      FieldCipher.Encrypt(c, f.phone, key, ivs.phone))
  }

  /** The four field decryptions of a row inside one `try`: all four texts, or the first failure. */
  function DecryptFields(c: Cbc.BlockCipher, e: Fields, key: string): (r: Result<Fields, FieldCipher.DecryptError>)
    ensures r.Ok? <==>
      && FieldCipher.Decrypt(c, e.name, key).Ok?
      && FieldCipher.Decrypt(c, e.nik, key).Ok?
      && FieldCipher.Decrypt(c, e.address, key).Ok?
      && FieldCipher.Decrypt(c, e.phone, key).Ok?
    ensures r.Ok? ==> r.value == Fields(
      FieldCipher.Decrypt(c, e.name, key).value,
      FieldCipher.Decrypt(c, e.nik, key).value,
      FieldCipher.Decrypt(c, e.address, key).value,
      FieldCipher.Decrypt(c, e.phone, key).value)
  {
    var name :- FieldCipher.Decrypt(c, e.name, key);
    var nik :- FieldCipher.Decrypt(c, e.nik, key);
    var address :- FieldCipher.Decrypt(c, e.address, key);
    var phone :- FieldCipher.Decrypt(c, e.phone, key);
    Ok(Fields(name, nik, address, phone))
  }

  /** A record encrypted under a passphrase decrypts, whole, to the same four texts under that passphrase. */
  lemma DecryptFieldsEncryptFields(c: Cbc.BlockCipher, f: Fields, key: string, ivs: FieldIvs)
    requires Cbc.Inverts(c)
    ensures DecryptFields(c, EncryptFields(c, f, key, ivs), key) == Ok(f)
  {
    FieldCipher.DecryptEncrypt(c, f.name, key, ivs.name);
    FieldCipher.DecryptEncrypt(c, f.nik, key, ivs.nik);
    FieldCipher.DecryptEncrypt(c, f.address, key, ivs.address);
    FieldCipher.DecryptEncrypt(c, f.phone, key, ivs.phone);
  }

  /**
   * The "Enkripsi dan Simpan" button: with every input filled in, the four fields are encrypted
   * and stored as one new row; otherwise the page warns and the table is left as it was.
   */
  method SaveNewRecord(t: UserTable, c: Cbc.BlockCipher, f: Fields, key: string, ivs: FieldIvs) returns (saved: bool)
    requires t.Valid()
    modifies t
    ensures t.Valid()
    ensures saved <==> AllFilled(f, key)
    ensures !saved ==> t.Contents() == old(t.Contents()) && t.Issued == old(t.Issued)
    ensures saved ==> exists id ::
                        && (forall j :: j in old(t.Issued) ==> j < id)
                        && t.Issued == old(t.Issued) + {id}
                        && t.Contents() == old(t.Contents())[id := EncryptFields(c, f, key, ivs)]
  {
    saved := AllFilled(f, key);
    if saved {
      var e := EncryptFields(c, f, key, ivs);
      var id := t.Insert(e);
    }
  }

  /** What the edit form does with the row chosen for editing. */
  datatype EditOutcome =
    | NoForm        // no such row, or no passphrase typed yet: the form is not shown
    | DecryptFailed // "Gagal dekripsi data. Pastikan kunci benar."
    | Updated       // "Data berhasil diperbarui!"

  /**
   * The edit form of "Lihat Data" up to its "Simpan Perubahan" button: the row is found in
   * the listed data and decrypted with the typed passphrase; only when all four fields decrypt
   * are the new values, encrypted under that passphrase, written back over that row.
   */
  method SaveEdit(t: UserTable, c: Cbc.BlockCipher, editId: int, key: string, newFields: Fields, ivs: FieldIvs)
    returns (outcome: EditOutcome)
    requires t.Valid()
    modifies t
    ensures t.Valid() && t.Issued == old(t.Issued)
    ensures outcome == NoForm <==> editId !in old(t.Contents()) || key == ""
    ensures outcome == DecryptFailed <==>
      editId in old(t.Contents()) && key != "" && DecryptFields(c, old(t.Contents())[editId], key).Err?
    ensures outcome == Updated ==> t.Contents() == old(t.Contents())[editId := EncryptFields(c, newFields, key, ivs)]
    ensures outcome != Updated ==> t.Contents() == old(t.Contents())
  {
    var data := t.SelectAll();
    var row := FindRow(data, editId);
    FindRowAsMap(data, editId);
    if row.None? || key == "" {
      return NoForm;
    }
    var plain := DecryptFields(c, row.value.fields, key);
    if plain.Err? {
      return DecryptFailed;
    }
    var e := EncryptFields(c, newFields, key, ivs);
    t.Update(editId, e);
    outcome := Updated;
  }

  /** One row of the "Dekripsi Data" page: its four texts, or the error line naming its id. */
  datatype RowView = Shown(id: int, fields: Fields) | Failed(id: int)

  /** The "Dekripsi Data" page after "Tampilkan Data Didekripsi". */
  datatype DecryptPage = KeyMissing | NoData | Listed(views: seq<RowView>)

  /** One pass of the row loop: the row decrypts whole, or only its id is reported. */
  function ViewRow(c: Cbc.BlockCipher, row: Row, key: string): (v: RowView)
    ensures v.id == row.id
    ensures v.Shown? <==> DecryptFields(c, row.fields, key).Ok?
    ensures v.Shown? ==> v.fields == DecryptFields(c, row.fields, key).value
  {
    match DecryptFields(c, row.fields, key)
    case Ok(f) => Shown(row.id, f)
    case Err(_) => Failed(row.id)
  }

  /** A row written under a passphrase is shown, with its original texts, under that passphrase. */
  lemma ViewRowOfEncrypted(c: Cbc.BlockCipher, id: int, f: Fields, key: string, ivs: FieldIvs)
    requires Cbc.Inverts(c)
    ensures ViewRow(c, Row(id, EncryptFields(c, f, key, ivs)), key) == Shown(id, f)
  {
    DecryptFieldsEncryptFields(c, f, key, ivs);
  }

  /**
   * The "Dekripsi Data" page: without a passphrase it warns; with no rows it says so;
   * otherwise every row is tried on its own, in order, and a failing row does not stop the rest.
   */
  method ShowDecrypted(c: Cbc.BlockCipher, data: seq<Row>, key: string) returns (page: DecryptPage)
    ensures key == "" <==> page == KeyMissing
    ensures page == NoData <==> key != "" && data == []
    ensures page.Listed? ==> |page.views| == |data|
    ensures page.Listed? ==> forall i :: 0 <= i < |data| ==> page.views[i] == ViewRow(c, data[i], key)
  {
    if key == "" {
      return KeyMissing;
    }
    if data == [] {
      return NoData;
    }
    var views: seq<RowView> := [];
    for i := 0 to |data|
      invariant |views| == i
      invariant forall j :: 0 <= j < i ==> views[j] == ViewRow(c, data[j], key)
    {
      views := views + [ViewRow(c, data[i], key)];
    }
    page := Listed(views);
  }
}
