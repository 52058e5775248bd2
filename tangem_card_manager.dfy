/**
 * TangemCardManager: the card command protocol. The card holds one NDEF text record carrying a
 * `{wallet, info}` record; `InitializeCard` writes it, `ProcessCommand` reads it back and
 * dispatches on the command type. Every path answers with a `CardResponse` value.
 */
module TangemCardManager {
  import opened Base
  import CryptoUtils
  import NFCUtils

  datatype CardStatus = Uninitialized | Initialized | Locked | Error

  /** The command types; the suffix keeps them apart from the handlers of the same name. */
  datatype CommandType = InitializeCardCmd | GetPublicKeyCmd | SignTransactionCmd | GetCardInfoCmd | BackupWalletCmd

  datatype CardCommand = CardCommand(commandType: CommandType, data: Option<string>, password: Option<string>)

  datatype CardInfo = CardInfo(
    cardId: string,
    status: CardStatus,
    walletAddress: Option<string>,
    publicKey: Option<string>,
    createdAt: Option<int>,
    lastUsed: int)

  /** What the card stores: the wallet and its card information. */
  datatype CardRecord = CardRecord(wallet: CryptoUtils.WalletData, info: CardInfo)

  /** The `data` of a response, by what it carries rather than by its JSON text. */
  datatype ResponseData =
    | CardInfoData(info: CardInfo)
    | PublicKeyData(publicKey: string)
    | SignatureData(signature: CryptoUtils.SignatureResult)
    | BackupData(wallet: CryptoUtils.WalletData)

  datatype CardResponse = CardResponse(success: bool, data: Option<ResponseData>, error: Option<string>, cardStatus: CardStatus)

  /** The JSON library: record encoding and decoding, transaction parsing. */
  datatype Gson = Gson(
    encodeRecord: CardRecord -> string,
    decodeRecord: string -> Option<CardRecord>,
    parseTransaction: string -> Result<CryptoUtils.TransactionData>)

  /**
   * The random values a call draws: the card's key pair and the card ID bytes (initializeCard), and
   * the pair generated inside signTransaction to report a public key.
   */
  datatype Entropy = Entropy(keyPair: Result<CryptoUtils.KeyPair>, cardIdBytes: CryptoUtils.Bytes8, freshPair: Result<CryptoUtils.KeyPair>)

  /**
   * How the I/O calls on the tag end: all complete; one fails before anything is written
   * (connect fails, or the tag rejects the message: too small, read-only, already formatted); the
   * write or format is interrupted and leaves the tag holding `left`; or close fails after a
   * complete write.
   */
  datatype Link = Completes | FailsBeforeWrite | FailsDuringWrite(left: Option<seq<NFCUtils.NdefRecord>>) | FailsAfterWrite

  /**
   * Everything outside the protocol: the clock reading, the crypto provider, the JSON library,
   * how the I/O calls on the tag end, and the random values.
   */
  datatype Environment = Environment(now: int, crypto: CryptoUtils.Crypto, gson: Gson, link: Link, entropy: Entropy)

  const NoRecordError := "无法读取卡片数据"
  const UnsupportedCommandError := "不支持的命令类型"
  const MissingSignInputError := "缺少密码或交易数据"
  const SignFailurePrefix := "签名失败: "
  const MissingPasswordError := "缺少密码"
  const PasswordCheckError := "密码验证失败"
  const WriteError := "写入卡片失败"
  const InitFailurePrefix := "初始化失败: "

  function Failed(error: string, status: CardStatus): (r: CardResponse)
  {
    CardResponse(false, None, Some(error), status)
  }

  function Succeeded(data: ResponseData, status: CardStatus): (r: CardResponse)
  {
    CardResponse(true, Some(data), None, status)
  }

  /** A failure carries an error and no data, a success data and no error. */
  predicate WellFormed(r: CardResponse)
  {
    if r.success then r.data.Some? && r.error.None? else r.data.None? && r.error.Some?
  }

  // ---------------------------------------------------------------------------------------------
  // The medium

  /** Which NDEF technology the tag offers. */
  datatype Technology = NdefTech | NdefFormatableTech | NoNdefTech

  /**
   * The {wallet, info} record an NDEF message yields when read through an NDEF connection whose
   * I/O calls (connect, read, close) all complete (`linkUp`): its first record parsed as a text
   * record, then decoded as JSON.
   */
  function ReadRecord(technology: Technology, message: Option<seq<NFCUtils.NdefRecord>>, gson: Gson, linkUp: bool)
    : (r: Option<CardRecord>)
    ensures technology != NdefTech || !linkUp || message.None? ==> r.None?
    ensures r.Some? ==> |message.value| > 0 && NFCUtils.ParseTextRecord(message.value[0]).Some?
                        && gson.decodeRecord(NFCUtils.ParseTextRecord(message.value[0]).value) == r
  {
    if technology != NdefTech || !linkUp || message.None? || |message.value| == 0 then None
    else
      match NFCUtils.ParseTextRecord(message.value[0])
      case None => None
      case Some(text) => gson.decodeRecord(text)
  }

  /**
   * A tag in the field. Its technology is fixed when the tag is discovered (a tag formatted during
   * the session is not offered as NDEF until it is discovered again); its NDEF message changes.
   */
  class Tag {
    const technology: Technology
    var message: Option<seq<NFCUtils.NdefRecord>>

    constructor(technology: Technology, message: Option<seq<NFCUtils.NdefRecord>>)
      ensures this.technology == technology && this.message == message
    {
      this.technology := technology;
      this.message := message;
    }

    /**
     * writeToCard: serialises the record and writes it as the single text record of a new
     * message, through an NDEF connection or by formatting. It reports true only when every I/O
     * call completes; a failure after the write has started still reports false although the
     * tag has changed.
     */
    method WriteToCard(record: CardRecord, gson: Gson, link: Link) returns (ok: bool)
      modifies this
      ensures ok <==> technology != NoNdefTech && link.Completes?
      ensures technology != NoNdefTech && (link.Completes? || link.FailsAfterWrite?) ==>
        message == Some([NFCUtils.TextRecord(gson.encodeRecord(record), NFCUtils.DefaultLanguage)])
      ensures technology != NoNdefTech && link.FailsDuringWrite? ==> message == link.left
      ensures technology == NoNdefTech || link.FailsBeforeWrite? ==> message == old(message)
    {
      if technology == NoNdefTech {
        return false;
      }
      match link
      case FailsBeforeWrite =>
        ok := false;
      case FailsDuringWrite(left) =>
        message := left;
        ok := false;
      case _ =>
        var json := gson.encodeRecord(record);
        var textRecord := NFCUtils.CreateTextRecord(json, NFCUtils.DefaultLanguage);
        message := Some([textRecord]);
        ok := link.Completes?;
    }

    /** readFromCard: the stored record, or None when the tag, the message or the decoding fails. */
    method ReadFromCard(gson: Gson, linkUp: bool) returns (r: Option<CardRecord>)
      ensures r == ReadRecord(technology, message, gson, linkUp)
    {
      if technology != NdefTech || !linkUp {
        return None;
      }
      var current := message;
      if current.None? || |current.value| == 0 {
        return None;
      }
      var text := NFCUtils.ParseTextRecord(current.value[0]);
      if text.None? {
        return None;
      }
      r := gson.decodeRecord(text.value);
    }
  }

  /** What is written back is what is read, whenever the JSON decoding inverts the encoding. */
  lemma WriteThenRead(json: string, record: CardRecord, gson: Gson)
    requires gson.decodeRecord(json) == Some(record)
    ensures ReadRecord(NdefTech, Some([NFCUtils.TextRecord(json, NFCUtils.DefaultLanguage)]), gson, true) == Some(record)
  {
    NFCUtils.ParseCreatedTextRecord(json, NFCUtils.DefaultLanguage);
  }

  // ---------------------------------------------------------------------------------------------
  // Initialisation

  /**
   * The wallet and card information initializeCard builds from a key pair: the info repeats the
   * wallet's card ID, public key, address and creation time, with status INITIALIZED.
   */
  function CardRecordFor(keyPair: CryptoUtils.KeyPair, password: string, env: Environment): (r: CardRecord)
    ensures r.info.status == Initialized && r.info.cardId == r.wallet.cardId
    ensures r.info.walletAddress == Some(r.wallet.address) && r.info.publicKey == Some(r.wallet.publicKey)
    ensures r.info.createdAt == Some(r.wallet.createdAt)
    ensures r.wallet.publicKey == env.crypto.base64Encode(keyPair.publicKey.encoded)
    ensures r.wallet.address == CryptoUtils.GenerateEthereumAddress(env.crypto, keyPair.publicKey)
    ensures r.wallet.encryptedPrivateKey == CryptoUtils.EncryptPrivateKey(env.crypto, keyPair.privateKey, password)
    ensures r.wallet.cardId == CryptoUtils.GenerateCardId(env.entropy.cardIdBytes) && |r.wallet.cardId| == 16
    ensures r.wallet.createdAt == env.now
  {
    var wallet := CryptoUtils.WalletData(
      env.crypto.base64Encode(keyPair.publicKey.encoded),
      CryptoUtils.GenerateEthereumAddress(env.crypto, keyPair.publicKey),
      CryptoUtils.EncryptPrivateKey(env.crypto, keyPair.privateKey, password),
      CryptoUtils.GenerateCardId(env.entropy.cardIdBytes),
      env.now);
    var info := CardInfo(wallet.cardId, Initialized, Some(wallet.address), Some(wallet.publicKey), Some(wallet.createdAt), env.now);
    CardRecord(wallet, info)
  }

  /**
   * initializeCard: generates a key pair, builds the record and writes it. A successful write
   * answers with the card information and INITIALIZED; a failed write answers with ERROR, the tag
   * changed as far as the write got; a failed key generation answers with ERROR and leaves the
   * tag as it was.
   */
  method InitializeCard(tag: Tag, password: string, env: Environment) returns (r: CardResponse)
    modifies tag
    ensures WellFormed(r)
    ensures r.success ==> r.cardStatus == Initialized
    ensures !r.success ==> r.cardStatus == Error
    ensures env.entropy.keyPair.Failure? ==>
      r == Failed(InitFailurePrefix + env.entropy.keyPair.message, Error) && tag.message == old(tag.message)
    ensures env.entropy.keyPair.Success? ==>
      var record := CardRecordFor(env.entropy.keyPair.value, password, env);
      var written := Some([NFCUtils.TextRecord(env.gson.encodeRecord(record), NFCUtils.DefaultLanguage)]);
      && (r.success <==> tag.technology != NoNdefTech && env.link.Completes?)
      && (r.success ==> r.data == Some(CardInfoData(record.info)))
      && (!r.success ==> r.error == Some(WriteError))
      && (tag.technology != NoNdefTech && (env.link.Completes? || env.link.FailsAfterWrite?) ==> tag.message == written)
      && (tag.technology != NoNdefTech && env.link.FailsDuringWrite? ==> tag.message == env.link.left)
      && (tag.technology == NoNdefTech || env.link.FailsBeforeWrite? ==> tag.message == old(tag.message))
  {
    match env.entropy.keyPair
    case Failure(m) =>
      r := Failed(InitFailurePrefix + m, Error);
    case Success(keyPair) =>
      var record := CardRecordFor(keyPair, password, env);
      var ok := tag.WriteToCard(record, env.gson, env.link);
      if ok {
        r := Succeeded(CardInfoData(record.info), Initialized);
      } else {
        r := Failed(WriteError, Error);
      }
  }

  // ---------------------------------------------------------------------------------------------
  // Command handlers

  /** getCardInfo: the stored card information with only lastUsed refreshed; the status is echoed. */
  function GetCardInfo(record: CardRecord, now: int): (r: CardResponse)
    ensures r.success && WellFormed(r) && r.cardStatus == record.info.status
    ensures r.data.value.CardInfoData? && r.data.value.info.lastUsed == now
    ensures r.data.value.info.(lastUsed := record.info.lastUsed) == record.info
  {
    Succeeded(CardInfoData(record.info.(lastUsed := now)), record.info.status)
  }

  /** getPublicKey: the wallet's public key text, verbatim, with the stored status. */
  function GetPublicKey(record: CardRecord): (r: CardResponse)
    ensures r.success && WellFormed(r) && r.cardStatus == record.info.status
    ensures r.data == Some(PublicKeyData(record.wallet.publicKey))
  {
    Succeeded(PublicKeyData(record.wallet.publicKey), record.info.status)
  }

  /**
   * signTransaction: needs both a password and transaction data; then decrypts the private key,
   * parses the transaction and signs it. Each failure is reported with the signing prefix; the
   * status is always the stored one.
   */
  function SignTransaction(record: CardRecord, command: CardCommand, env: Environment): (r: CardResponse)
    ensures WellFormed(r) && r.cardStatus == record.info.status
    ensures command.password.None? || command.data.None? ==> r == Failed(MissingSignInputError, record.info.status)
    ensures r.success <==>
      && command.password.Some? && command.data.Some?
      && CryptoUtils.DecryptPrivateKey(env.crypto, record.wallet.encryptedPrivateKey, command.password.value).Success?
      && env.gson.parseTransaction(command.data.value).Success?
      && CryptoUtils.SignTransaction(env.crypto, env.gson.parseTransaction(command.data.value).value,
           CryptoUtils.DecryptPrivateKey(env.crypto, record.wallet.encryptedPrivateKey, command.password.value).value,
           env.entropy.freshPair).Success?
    ensures r.success ==> r.data == Some(SignatureData(CryptoUtils.SignTransaction(env.crypto,
      env.gson.parseTransaction(command.data.value).value,
      CryptoUtils.DecryptPrivateKey(env.crypto, record.wallet.encryptedPrivateKey, command.password.value).value,
      env.entropy.freshPair).value))
    ensures !r.success && command.password.Some? && command.data.Some? ==> SignFailurePrefix <= r.error.value
  {
    var status := record.info.status;
    if command.password.None? || command.data.None? then Failed(MissingSignInputError, status)
    else
      match CryptoUtils.DecryptPrivateKey(env.crypto, record.wallet.encryptedPrivateKey, command.password.value)
      case Failure(m) => Failed(SignFailurePrefix + m, status)
      case Success(privateKey) =>
        match env.gson.parseTransaction(command.data.value)
        case Failure(m) => Failed(SignFailurePrefix + m, status)
        case Success(tx) =>
          match CryptoUtils.SignTransaction(env.crypto, tx, privateKey, env.entropy.freshPair)
          case Failure(m) => Failed(SignFailurePrefix + m, status)
          case Success(signature) => Succeeded(SignatureData(signature), status)
  }

  /**
   * backupWallet: needs a password, which it checks by decrypting the private key; on success it
   * returns the stored wallet unchanged, private key still encrypted.
   */
  function BackupWallet(record: CardRecord, command: CardCommand, env: Environment): (r: CardResponse)
    ensures WellFormed(r) && r.cardStatus == record.info.status
    ensures command.password.None? ==> r.error == Some(MissingPasswordError)
    ensures r.success <==>
      command.password.Some? && CryptoUtils.DecryptPrivateKey(env.crypto, record.wallet.encryptedPrivateKey, command.password.value).Success?
    ensures command.password.Some? && !r.success ==> r.error == Some(PasswordCheckError)
    ensures r.success ==> r.data == Some(BackupData(record.wallet))
  {
    var status := record.info.status;
    if command.password.None? then Failed(MissingPasswordError, status)
    else
      match CryptoUtils.DecryptPrivateKey(env.crypto, record.wallet.encryptedPrivateKey, command.password.value)
      case Failure(_) => Failed(PasswordCheckError, status)
      case Success(_) => Succeeded(BackupData(record.wallet), status)
  }

  /**
   * The `when` of processCommand: the four handled command types go to their handlers and echo the
   * stored status; INITIALIZE_CARD is not handled here and answers "unsupported" with ERROR.
   */
  function Dispatch(record: CardRecord, command: CardCommand, env: Environment): (r: CardResponse)
    ensures WellFormed(r)
    ensures command.commandType == InitializeCardCmd ==> r == Failed(UnsupportedCommandError, Error)
    ensures command.commandType != InitializeCardCmd ==> r.cardStatus == record.info.status
  {
    match command.commandType
    case GetCardInfoCmd => GetCardInfo(record, env.now)
    case GetPublicKeyCmd => GetPublicKey(record)
    case SignTransactionCmd => SignTransaction(record, command, env)
    case BackupWalletCmd => BackupWallet(record, command, env)
    case InitializeCardCmd => Failed(UnsupportedCommandError, Error)
  }

  /**
   * processCommand: reads the record from the tag; without one it answers ERROR and no handler
   * runs. It has no `modifies` clause: no command writes to the tag.
   */
  method ProcessCommand(tag: Tag, command: CardCommand, env: Environment) returns (r: CardResponse)
    ensures WellFormed(r)
    ensures ReadRecord(tag.technology, tag.message, env.gson, env.link.Completes?).None? ==> r == Failed(NoRecordError, Error)
    ensures ReadRecord(tag.technology, tag.message, env.gson, env.link.Completes?).Some? ==>
      r == Dispatch(ReadRecord(tag.technology, tag.message, env.gson, env.link.Completes?).value, command, env)
  {
    var cardData := tag.ReadFromCard(env.gson, env.link.Completes?);
    if cardData.None? {
      return Failed(NoRecordError, Error);
    }
    r := Dispatch(cardData.value, command, env);
  }

  // ---------------------------------------------------------------------------------------------
  // Properties across calls

  /**
   * The guards of signTransaction decide before any cryptography: without a password or data the
   * answer is the same whatever the provider, the JSON library or the random values.
   */
  lemma MissingSignInputIgnoresEnvironment(record: CardRecord, command: CardCommand, env1: Environment, env2: Environment)
    requires command.password.None? || command.data.None?
    ensures SignTransaction(record, command, env1) == SignTransaction(record, command, env2)
  {
  }

  /**
   * After initialisation, GET_CARD_INFO on the written message answers with status INITIALIZED and
   * the address derived from the card's public key, provided the JSON round trip holds.
   */
  lemma InitializeThenGetCardInfo(keyPair: CryptoUtils.KeyPair, password: string, env: Environment, command: CardCommand, later: Environment)
    requires command.commandType == GetCardInfoCmd && later.link.Completes?
    requires later.gson.decodeRecord(env.gson.encodeRecord(CardRecordFor(keyPair, password, env))) == Some(CardRecordFor(keyPair, password, env))
    ensures
      var message := Some([NFCUtils.TextRecord(env.gson.encodeRecord(CardRecordFor(keyPair, password, env)), NFCUtils.DefaultLanguage)]);
      var stored := ReadRecord(NdefTech, message, later.gson, later.link.Completes?);
      && stored.Some?
      && var r := Dispatch(stored.value, command, later);
      && r.success && r.cardStatus == Initialized
      && r.data.value.info.walletAddress == Some(CryptoUtils.GenerateEthereumAddress(env.crypto, keyPair.publicKey))
  {
    var record := CardRecordFor(keyPair, password, env);
    WriteThenRead(env.gson.encodeRecord(record), record, later.gson);
  }

  /**
   * BACKUP_WALLET with the password the card was initialised with succeeds and returns the wallet
   * whose ciphertext decrypts to the card's private key (under the cipher and Base64 laws).
   */
  lemma BackupWithInitialPassword(keyPair: CryptoUtils.KeyPair, password: string, env: Environment, command: CardCommand)
    requires CryptoUtils.Lawful(env.crypto)
    requires env.crypto.loadPrivateKey(keyPair.privateKey.encoded) == Success(keyPair.privateKey)
    requires command.password == Some(password)
    ensures
      var record := CardRecordFor(keyPair, password, env);
      var r := BackupWallet(record, command, env);
      && r.success && r.data == Some(BackupData(record.wallet))
      && CryptoUtils.DecryptPrivateKey(env.crypto, r.data.value.wallet.encryptedPrivateKey, password) == Success(keyPair.privateKey)
  {
    CryptoUtils.DecryptEncrypt(env.crypto, keyPair.privateKey, password);
  }

  /**
   * SIGN_TRANSACTION with the initial password signs with the card's own private key; it fails
   * only when the data does not parse or the extra key pair cannot be produced.
   */
  lemma SignWithInitialPassword(keyPair: CryptoUtils.KeyPair, password: string, env: Environment, command: CardCommand)
    requires CryptoUtils.Lawful(env.crypto)
    requires env.crypto.loadPrivateKey(keyPair.privateKey.encoded) == Success(keyPair.privateKey)
    requires command.password == Some(password) && command.data.Some?
    ensures
      var r := SignTransaction(CardRecordFor(keyPair, password, env), command, env);
      && (env.gson.parseTransaction(command.data.value).Failure? ==> !r.success)
      && (env.gson.parseTransaction(command.data.value).Success? ==>
           var tx := env.gson.parseTransaction(command.data.value).value;
           && (r.success <==> CryptoUtils.SignTransaction(env.crypto, tx, keyPair.privateKey, env.entropy.freshPair).Success?)
           && (r.success ==>
                (r.data.value.signature.signature
                 == env.crypto.base64Encode(env.crypto.ecdsaSign(keyPair.privateKey, CryptoUtils.TransactionHash(env.crypto, tx))))))
  {
    CryptoUtils.DecryptEncrypt(env.crypto, keyPair.privateKey, password);
  }
}
