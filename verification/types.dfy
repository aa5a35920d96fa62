/** The shared types of the generator (types.ts). */
module Types {

  /** How the table labels are entered: auto-numbered or one per line. */
  datatype InputMethod = Simple | List

  /** One generated code: the table label shown under the QR symbol and the
      link the symbol encodes. */
  datatype GeneratedQrCode = GeneratedQrCode(tableLabel: string, qrValue: string)
}
