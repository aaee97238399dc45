/** The error catalogue of the form, the order in which validity flags are
    examined, the choice of the message shown for an invalid field, and the
    table of fields that run a validator of their own. */
module Messages {
  import opened JsValues

  /** The `data-tipo` of a field; `Untyped` stands for any other value,
      including a field without the attribute. */
  datatype FieldType =
    | Nome | Email | Senha | DataNascimento | Cpf | Cep
    | Logradouro | Cidade | Estado | Preco
    | Untyped

  /** The validity flags the catalogue knows about. */
  datatype ErrorKind = ValueMissing | TypeMismatch | PatternMismatch | CustomError

  /** `tiposDeErro`: the order in which the flags are examined. */
  const TiposDeErro: seq<ErrorKind> := [ValueMissing, TypeMismatch, PatternMismatch, CustomError]

  /** The flags the browser computes from the field's current value and its
      HTML attributes; `otherInvalid` stands for every flag of the validity
      state the catalogue does not name (tooLong, rangeOverflow, badInput…). */
  datatype Flags = Flags(valueMissing: bool, typeMismatch: bool, patternMismatch: bool, otherInvalid: bool)

  /** A field's validity state: the browser's flags and the message last
      given to `setCustomValidity` ('' when there is none). */
  datatype Validity = Validity(flags: Flags, customMessage: string)
  {
    predicate CustomError() {
      customMessage != ""
    }

    /** `validity.valid`: no flag is raised. */
    predicate Valid() {
      !flags.valueMissing && !flags.typeMismatch && !flags.patternMismatch &&
      !flags.otherInvalid && !CustomError()
    }
  }

  /** `input.validity[erro]`. */
  predicate Active(v: Validity, k: ErrorKind) {
    match k
    case ValueMissing => v.flags.valueMissing
    case TypeMismatch => v.flags.typeMismatch
    case PatternMismatch => v.flags.patternMismatch
    case CustomError => v.CustomError()
  }

  /** The position of a flag in `tiposDeErro`. */
  function Rank(k: ErrorKind): (i: nat)
    ensures i < |TiposDeErro| && TiposDeErro[i] == k
  {
    match k
    case ValueMissing => 0
    case TypeMismatch => 1
    case PatternMismatch => 2
    case CustomError => 3
  }

  /** The flag whose message is shown: the active flag that comes last in
      `tiposDeErro`, none when no flag of the catalogue is active. */
  function LastActive(v: Validity): (r: Option<ErrorKind>)
    ensures r.None? <==> forall k :: !Active(v, k)
    ensures r.Some? ==> Active(v, r.value) && forall k :: Active(v, k) ==> Rank(k) <= Rank(r.value)
  {
    if v.CustomError() then assert Active(v, CustomError); Some(CustomError)
    else if v.flags.patternMismatch then assert Active(v, PatternMismatch); Some(PatternMismatch)
    else if v.flags.typeMismatch then assert Active(v, TypeMismatch); Some(TypeMismatch)
    else if v.flags.valueMissing then assert Active(v, ValueMissing); Some(ValueMissing)
    else None
  }

  /** The last active flag among the first `n` entries of `tiposDeErro`, as
      a walk from the front that remembers the latest hit sees it. */
  function LastActiveAmong(v: Validity, n: nat): Option<ErrorKind>
    requires n <= |TiposDeErro|
  {
    if n == 0 then None
    else if Active(v, TiposDeErro[n - 1]) then Some(TiposDeErro[n - 1])
    else LastActiveAmong(v, n - 1)
  }

  /** Walking the whole of `tiposDeErro` finds the last active flag. */
  lemma {:induction false} LastActiveAmongAll(v: Validity)
    ensures LastActiveAmong(v, |TiposDeErro|) == LastActive(v)
  {
    assert LastActiveAmong(v, 1) == if v.flags.valueMissing then Some(ValueMissing) else None;
    assert LastActiveAmong(v, 2) == if v.flags.typeMismatch then Some(TypeMismatch) else LastActiveAmong(v, 1);
    assert LastActiveAmong(v, 3) == if v.flags.patternMismatch then Some(PatternMismatch) else LastActiveAmong(v, 2);
  }

  /** A value the message lookup can produce: the initial '', a message of
      the catalogue, or `undefined` when the catalogue has no entry for the
      flag. */
  datatype MessageValue = Blank | Text(id: MessageId) | Undefined

  /** The outcome of `mostraMensagemDeErro`: a value, or the TypeError thrown
      by `mensagensDeErro[tipoInput][erro]` when the type has no catalogue. */
  datatype Selection = Message(m: MessageValue) | TypeError

  /** The messages of the catalogue, one identifier per distinct text. */
  datatype MessageId =
    | NomeVazio | EmailVazio | EmailInvalido | SenhaVazia | SenhaInvalida
    | DataVazia | IdadeInsuficiente | CpfVazio | CpfInvalido
    | CepVazio | CepInvalido | CepNaoEncontrado
    | LogradouroVazio | CidadeVazia | EstadoVazio | PrecoVazio

  /** The text of each message. */
  function Wording(id: MessageId): string {
    match id
    case NomeVazio => "O campo de nome não pode estar vazio."
    case EmailVazio => "O campo de e-mail não pode estar vazio."
    case EmailInvalido => "O e-mail digitado não é valido."
    case SenhaVazia => "O campo de senha não pode estar vazio."
    case SenhaInvalida => "A senha deve conter entre 6 e 12 caracteres, deve conter pelo menos uma letra minúscula e uma letra maiúscula, deve conter pelo menos um número e não deve conter símbolos."
    case DataVazia => "O campo de data de nascimento não pode estar vazio."
    case IdadeInsuficiente => "O usuário deve ter 18 anos ou mais para se cadastrar."
    case CpfVazio => "O campo de CPF de nascimento não pode estar vazio."
    case CpfInvalido => "O CPF digitado não é válido."
    case CepVazio => "O campo de CEP de nascimento não pode estar vazio."
    case CepInvalido => "O CEP digitado não é válido."
    case CepNaoEncontrado => "O CEP informado não foi encontrado."
    case LogradouroVazio => "O campo de Logradouro não pode estar vazio."
    case CidadeVazia => "O campo de Cidade não pode estar vazio."
    case EstadoVazio => "O campo de Estado não pode estar vazio."
    case PrecoVazio => "O campo de Preço não pode estar vazio."
  }

  /** Whether `mensagensDeErro` has an entry for the type at all. */
  predicate HasCatalogue(t: FieldType) {
    t != Untyped
  }

  /** `mensagensDeErro[t][k]` for a type with a catalogue: the message, or
      `None` when the catalogue does not list the flag. */
  function MensagensDeErro(t: FieldType, k: ErrorKind): Option<MessageId> {
    match (t, k)
    case (Nome, ValueMissing) => Some(NomeVazio)
    case (Email, ValueMissing) => Some(EmailVazio)
    case (Email, TypeMismatch) => Some(EmailInvalido)
    case (Senha, ValueMissing) => Some(SenhaVazia)
    case (Senha, PatternMismatch) => Some(SenhaInvalida)
    case (DataNascimento, ValueMissing) => Some(DataVazia)
    case (DataNascimento, CustomError) => Some(IdadeInsuficiente)
    case (Cpf, ValueMissing) => Some(CpfVazio)
    case (Cpf, CustomError) => Some(CpfInvalido)
    case (Cep, ValueMissing) => Some(CepVazio)
    case (Cep, PatternMismatch) => Some(CepInvalido)
    case (Cep, CustomError) => Some(CepNaoEncontrado)
    case (Logradouro, ValueMissing) => Some(LogradouroVazio)
    case (Cidade, ValueMissing) => Some(CidadeVazia)
    case (Estado, ValueMissing) => Some(EstadoVazio)
    case (Preco, ValueMissing) => Some(PrecoVazio)
    case _ => None
  }

  /** The value `mensagensDeErro[t][k]` evaluates to. */
  function Entry(t: FieldType, k: ErrorKind): MessageValue {
    match MensagensDeErro(t, k)
    case None => Undefined
    case Some(id) => Text(id)
  }

  /** What the error display of a field of type `t` should show: '' when no
      flag is active; otherwise the entry of the last active flag, or a
      TypeError when the type has no catalogue. */
  function Selected(t: FieldType, v: Validity): Selection {
    match LastActive(v)
    case None => Message(Blank)
    case Some(k) => if HasCatalogue(t) then Message(Entry(t, k)) else TypeError
  }

  /** `mostraMensagemDeErro`: walks `tiposDeErro`, overwriting the message on
      every active flag. */
  method MostraMensagemDeErro(tipo: FieldType, v: Validity) returns (r: Selection)
    ensures r == Selected(tipo, v)
  {
    var mensagem := Blank;
    var i := 0;
    while i < |TiposDeErro|
      invariant 0 <= i <= |TiposDeErro|
      invariant !HasCatalogue(tipo) ==> LastActiveAmong(v, i).None?
      invariant mensagem == match LastActiveAmong(v, i)
                            case None => Blank
                            case Some(k) => Entry(tipo, k)
    {
      var erro := TiposDeErro[i];
      if Active(v, erro) {
        if !HasCatalogue(tipo) {
          return TypeError;
        }
        mensagem := Entry(tipo, erro);
      }
      i := i + 1;
    }
    LastActiveAmongAll(v);
    return Message(mensagem);
  }

  /** The message is '' exactly when none of the four flags is active; a
      typed field never throws. */
  lemma EmptyIffNoActiveFlag(t: FieldType, v: Validity)
    requires HasCatalogue(t)
    ensures Selected(t, v) == Message(Blank) <==> forall k :: !Active(v, k)
    ensures Selected(t, v) != TypeError
  {
  }

  /** A field without a catalogue throws exactly when one of the four flags
      is active. */
  lemma UntypedThrowsIffActive(v: Validity)
    ensures Selected(Untyped, v) == TypeError <==> exists k :: Active(v, k)
  {
    if exists k :: Active(v, k) {
      assert LastActive(v).Some?;
    }
  }

  /** When several flags are active the later one in `tiposDeErro` decides.
      A CEP field emptied after a "not found" answer keeps that custom error
      and shows it rather than "cannot be empty"; a malformed CEP with the
      same custom error shows it rather than "not valid". */
  lemma LastFlagWins(m: string)
    requires m != ""
    ensures Selected(Cep, Validity(Flags(true, false, false, false), m)) == Message(Text(CepNaoEncontrado))
    ensures Selected(Cep, Validity(Flags(false, false, true, false), m)) == Message(Text(CepNaoEncontrado))
    ensures Selected(Cep, Validity(Flags(true, false, false, false), "")) == Message(Text(CepVazio))
    ensures Selected(Cep, Validity(Flags(false, false, true, false), "")) == Message(Text(CepInvalido))
  {
  }

  /** A flag the type's catalogue does not list selects `undefined`: an
      invalid e-mail address typed into the name field, say. */
  lemma MissingEntryUndefined(t: FieldType, v: Validity)
    requires HasCatalogue(t) && LastActive(v).Some?
    requires MensagensDeErro(t, LastActive(v).value).None?
    ensures Selected(t, v) == Message(Undefined)
  {
  }

  /** The validators that `validadores` attaches to a field type. */
  datatype Validator = CheckAge | CheckCpf | LookUpCep

  /** `validadores`: only birth date, CPF and CEP fields have one. */
  function Validadores(t: FieldType): (r: Option<Validator>)
    ensures r.Some? <==> t in {DataNascimento, Cpf, Cep}
    ensures r == Some(CheckAge) <==> t == DataNascimento
    ensures r == Some(CheckCpf) <==> t == Cpf
    ensures r == Some(LookUpCep) <==> t == Cep
  {
    match t
    case DataNascimento => Some(CheckAge)
    case Cpf => Some(CheckCpf)
    case Cep => Some(LookUpCep)
    case _ => None
  }

  /** The messages the three validators pass to `setCustomValidity`. */
  const MensagemIdade := "O usuário deve ter 18 anos ou mais para se cadastrar."
  const MensagemCpf := "O CPF digitado não é válido."
  const MensagemCepNaoEncontrado := "O CEP informado não foi encontrado."

  /** Each validator's message is its type's catalogue entry for a custom
      error, and only types with a validator list a custom error, so a
      custom error is always displayed as the message that set it. */
  lemma CustomMessagesInCatalogue()
    ensures Wording(MensagensDeErro(DataNascimento, CustomError).value) == MensagemIdade
    ensures Wording(MensagensDeErro(Cpf, CustomError).value) == MensagemCpf
    ensures Wording(MensagensDeErro(Cep, CustomError).value) == MensagemCepNaoEncontrado
    ensures forall t :: MensagensDeErro(t, CustomError).Some? ==> Validadores(t).Some?
  {
  }

  /** A custom error on a field with a validator is shown as the catalogue's
      custom-error entry whatever other flags are raised. */
  lemma CustomErrorShown(t: FieldType, f: Flags, m: string)
    requires Validadores(t).Some?
    requires m != ""
    ensures Selected(t, Validity(f, m)) == Message(Entry(t, CustomError))
  {
  }
}
