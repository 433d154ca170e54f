/** The settings the modelled code reads, with their default values. */
module Config {
  const AccessTokenExpireMinutes: int := 30
  const QrCodeSize: int := 300
  const QrCodesPerRow: int := 3
  const QrCodesPerColumn: int := 7
  /** Age, in days, after which a PENDING damage report is due for checking. */
  const DamageCheckDays: int := 7
  const QrCodesDir: string := "static/qr_codes"
}
